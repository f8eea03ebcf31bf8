/** The booking service: creating a booking (the overlap and sell-out checks, the price, and the
    writes of booking, availability and payment), cancelling one, and listing a user's bookings. */
module BookingService {
  import opened Domain
  import opened Store
  import BR = BookingRepository
  import RR = RoomRepository

  /** The service's failures; the comments give the message the service returns. */
  datatype BookingError =
    | RoomBookedForDates  // "kamar sudah dibooking untuk tanggal tersebut"
    | RoomNotFound        // "room tidak ditemukan"
    | RoomSoldOut         // "kamar tidak tersedia"
    | BookingNotFound     // the store's not-found error, returned as it is
    | NotOwner            // "tidak diizinkan membatalkan booking"

  const HoursPerNight: int := 24

  /** The longest stay, in whole hours, that a Go `time.Duration` (int64 nanoseconds) can hold:
      the difference of check-out and check-in saturates there. */
  const MaxStayHours: int := 2562047

  /** The nights charged for a stay of `hours` hours: the duration saturated at `MaxStayHours`,
      divided by 24, truncated toward zero as the float-to-int conversion does, and raised to 1
      when that is below 1. */
  function Nights(hours: int): (n: int)
    ensures n >= 1
    ensures HoursPerNight <= hours <= MaxStayHours ==> n * HoursPerNight <= hours < (n + 1) * HoursPerNight
    ensures hours >= MaxStayHours ==> n == MaxStayHours / HoursPerNight
    ensures hours < 2 * HoursPerNight ==> n == 1
  {
    var capped := if hours > MaxStayHours then MaxStayHours else hours;
    var whole := if capped >= 0 then capped / HoursPerNight else -((-capped) / HoursPerNight);
    if whole < 1 then 1 else whole
  }

  /** Some PENDING/CONFIRMED booking on the room overlaps `[checkIn, checkOut)`. */
  predicate HasConflict(s: State, roomId: Id, checkIn: int, checkOut: int) {
    exists id :: id in s.bookings && BR.ConflictsWith(s.bookings[id], roomId, checkIn, checkOut)
  }

  /** The net effect of CreateBooking. The new booking takes the next id, its payment the one after. */
  function CreateStep(s: State, userId: Id, roomId: Id, checkIn: int, checkOut: int, now: int)
    : (o: Step<Booking, BookingError>)
    ensures o.result.Err? ==> o.state == s
    ensures o.result == Err(RoomBookedForDates) <==> HasConflict(s, roomId, checkIn, checkOut)
    ensures o.result == Err(RoomNotFound) <==>
              !HasConflict(s, roomId, checkIn, checkOut) && roomId !in s.rooms
    ensures o.result == Err(RoomSoldOut) <==>
              !HasConflict(s, roomId, checkIn, checkOut) && roomId in s.rooms && s.rooms[roomId].availability <= 0
    ensures o.result.Ok? <==>
              !HasConflict(s, roomId, checkIn, checkOut) && roomId in s.rooms && s.rooms[roomId].availability > 0
  {
    var active := BR.FindActiveByRoom(s.bookings, roomId, checkIn, checkOut);
    if active != {} then
      Step(s, Err(RoomBookedForDates))
    else
      assert forall id | id in s.bookings :: id !in active;
      if roomId !in s.rooms then
        Step(s, Err(RoomNotFound))
      else
        var room := s.rooms[roomId];
        if room.availability <= 0 then
          Step(s, Err(RoomSoldOut))
        else
          var totalPrice := Nights(checkOut - checkIn) * room.pricePerNight;
          var b := Booking(s.nextId, userId, roomId, checkIn, checkOut, totalPrice, Pending, now);
          var p := Payment(s.nextId + 1, b.id, totalPrice, PaymentPending, "");
          Step(s.(rooms := RR.SetAvailability(s.rooms, roomId, room.availability - 1),
                  bookings := s.bookings[b.id := b],
                  payments := s.payments[b.id := p],
                  nextId := s.nextId + 2),
               Ok(b))
  }

  /** On success exactly one new booking exists: PENDING, with the given user, room and dates and
      the price `nights * pricePerNight`; the room's availability is exactly one less and nothing
      else about the rooms changes; and exactly one new PENDING payment exists, linked to the new
      booking, for the booking's total price. */
  lemma CreateSucceeds(s: State, userId: Id, roomId: Id, checkIn: int, checkOut: int, now: int)
    requires Valid(s)
    requires CreateStep(s, userId, roomId, checkIn, checkOut, now).result.Ok?
    ensures var o := CreateStep(s, userId, roomId, checkIn, checkOut, now);
      var b := o.result.value;
      var room := s.rooms[roomId];
      && b.id !in s.bookings && b.id !in s.payments
      && b == Booking(b.id, userId, roomId, checkIn, checkOut,
                      Nights(checkOut - checkIn) * room.pricePerNight, Pending, now)
      && o.state.bookings.Keys == s.bookings.Keys + {b.id}
      && o.state.bookings == s.bookings[b.id := b]
      && o.state.rooms == s.rooms[roomId := room.(availability := room.availability - 1)]
      && o.state.payments.Keys == s.payments.Keys + {b.id}
      && (forall k | k in s.payments :: o.state.payments[k] == s.payments[k])
      && o.state.payments[b.id].bookingId == b.id
      && o.state.payments[b.id].amount == b.totalPrice
      && o.state.payments[b.id].status == PaymentPending
      && o.state.hotels == s.hotels
  {
  }

  /** CreateBooking keeps the store's structure, every room's availability non-negative and no two
      active bookings on a room overlapping. */
  lemma CreatePreservesInvariants(s: State, userId: Id, roomId: Id, checkIn: int, checkOut: int, now: int)
    requires Valid(s)
    ensures var t := CreateStep(s, userId, roomId, checkIn, checkOut, now).state;
      && Valid(t)
      && (AvailabilityNonNegative(s) ==> AvailabilityNonNegative(t))
      && (NoOverlap(s.bookings) ==> NoOverlap(t.bookings))
  {
    var o := CreateStep(s, userId, roomId, checkIn, checkOut, now);
    if o.result.Ok? && NoOverlap(s.bookings) {
      var b := o.result.value;
      var t := o.state;
      assert b.id !in s.bookings;
      forall i, j | i in t.bookings && j in t.bookings && i != j &&
          t.bookings[i].roomId == t.bookings[j].roomId && IsActive(t.bookings[i]) && IsActive(t.bookings[j])
        ensures !BR.Overlaps(t.bookings[i], t.bookings[j])
      {
        if i == b.id {
          assert !BR.ConflictsWith(s.bookings[j], roomId, checkIn, checkOut);
        } else if j == b.id {
          assert !BR.ConflictsWith(s.bookings[i], roomId, checkIn, checkOut);
        }
      }
    }
  }

  /** The net effect of CancelBooking: the loaded booking is saved with status CANCELLED. */
  function CancelStep(s: State, userId: Id, bookingId: Id): (o: Step<(), BookingError>)
    ensures o.result.Err? ==> o.state == s
    ensures o.result == Err(BookingNotFound) <==> bookingId !in s.bookings
    ensures o.result == Err(NotOwner) <==> bookingId in s.bookings && s.bookings[bookingId].userId != userId
    ensures o.result.Ok? ==> o.state.rooms == s.rooms && o.state.payments == s.payments
  {
    match BR.FindByID(s.bookings, bookingId)
    case Err(_) => Step(s, Err(BookingNotFound))
    case Ok(b) =>
      if b.userId != userId then Step(s, Err(NotOwner))
      else Step(s.(bookings := s.bookings[b.id := b.(status := Cancelled)]), Ok(()))
  }

  /** The owner's cancel sets only that booking's status to CANCELLED, whatever it was before;
      availability is not given back and the payment is untouched. */
  lemma CancelEffect(s: State, userId: Id, bookingId: Id)
    requires Valid(s) && bookingId in s.bookings && s.bookings[bookingId].userId == userId
    ensures CancelStep(s, userId, bookingId) ==
      Step(s.(bookings := s.bookings[bookingId := s.bookings[bookingId].(status := Cancelled)]), Ok(()))
  {
  }

  /** Cancelling twice gives the same state and result as cancelling once. */
  lemma CancelIdempotent(s: State, userId: Id, bookingId: Id)
    ensures var o := CancelStep(s, userId, bookingId);
      CancelStep(o.state, userId, bookingId) == o
  {
  }

  lemma CancelPreservesInvariants(s: State, userId: Id, bookingId: Id)
    requires Valid(s)
    ensures var t := CancelStep(s, userId, bookingId).state;
      && Valid(t)
      && (AvailabilityNonNegative(s) ==> AvailabilityNonNegative(t))
      && (NoOverlap(s.bookings) ==> NoOverlap(t.bookings))
  {
  }

  /** CreateBooking, as the service runs it: the checks in order, then the booking insert, the
      absolute availability write of the value read minus one, and the payment insert. */
  method CreateBooking(db: Database, userId: Id, roomId: Id, checkIn: int, checkOut: int, now: int)
    returns (r: Result<Booking, BookingError>)
    requires Valid(db.Snapshot())
    modifies db
    ensures Step(db.Snapshot(), r) == CreateStep(old(db.Snapshot()), userId, roomId, checkIn, checkOut, now)
    ensures Valid(db.Snapshot())
  {
    CreatePreservesInvariants(db.Snapshot(), userId, roomId, checkIn, checkOut, now);
    var active := BR.FindActiveByRoom(db.bookings, roomId, checkIn, checkOut);
    if |active| > 0 {
      return Err(RoomBookedForDates);
    }
    var found := RR.FindByID(db.rooms, roomId);
    if found.Err? {
      return Err(RoomNotFound);
    }
    var room := found.value;
    if room.availability <= 0 {
      return Err(RoomSoldOut);
    }
    var nights := Nights(checkOut - checkIn);
    var totalPrice := nights * room.pricePerNight;
    var booking := Booking(0, userId, roomId, checkIn, checkOut, totalPrice, Pending, 0);
    var id := db.InsertBooking(booking, now);
    booking := booking.(id := id, createdAt := now);
    db.UpdateAvailability(roomId, room.availability - 1);
    var _ := db.InsertPayment(Payment(0, id, totalPrice, PaymentPending, ""));
    r := Ok(booking);
  }

  /** CancelBooking: load, check the owner, save with status CANCELLED. */
  method CancelBooking(db: Database, userId: Id, bookingId: Id) returns (r: Result<(), BookingError>)
    requires Valid(db.Snapshot())
    modifies db
    ensures Step(db.Snapshot(), r) == CancelStep(old(db.Snapshot()), userId, bookingId)
    ensures Valid(db.Snapshot())
  {
    CancelPreservesInvariants(db.Snapshot(), userId, bookingId);
    var found := BR.FindByID(db.bookings, bookingId);
    if found.Err? {
      return Err(BookingNotFound);
    }
    var booking := found.value;
    if booking.userId != userId {
      return Err(NotOwner);
    }
    booking := booking.(status := Cancelled);
    db.SaveBooking(booking);
    r := Ok(());
  }

  /** GetUserBookings: every booking of the user exactly once, newest first, and no other. */
  function GetUserBookings(s: State, userId: Id): (r: seq<Booking>)
    requires Valid(s)
    ensures BR.NewestFirst(r) && BR.Distinct(r)
    ensures forall b :: b in r <==> b.id in s.bookings && s.bookings[b.id] == b && b.userId == userId
  {
    BR.FindByUserExact(s.bookings, userId, s.nextId);
    BR.FindByUser(s.bookings, userId, s.nextId)
  }
}
