/** The payment service: the gateway's callback moves a payment and its booking to a final status
    and, when the payment did not succeed, gives the room's unit back. */
module PaymentService {
  import opened Domain
  import opened Store
  import BR = BookingRepository
  import RR = RoomRepository

  /** The callback's failures, with the messages the service returns. */
  datatype PaymentError =
    | PaymentNotFound  // "payment record not found"
    | BookingNotFound  // "booking not found"

  /** The only status string the callback treats as a success; the comparison is exact. */
  const SuccessStatus: string := "SUCCESS"

  /** The net effect of HandlePaymentCallback. Both rows are saved under the keys of the loaded
      records; the room write is the absolute value read plus one. */
  function CallbackStep(s: State, bookingId: Id, transactionId: string, status: string)
    : (o: Step<(), PaymentError>)
    ensures o.result.Err? ==> o.state == s
    ensures o.result == Err(PaymentNotFound) <==> bookingId !in s.payments
    ensures o.result == Err(BookingNotFound) <==> bookingId in s.payments && bookingId !in s.bookings
    ensures o.state.hotels == s.hotels && o.state.nextId == s.nextId
    ensures status == SuccessStatus ==> o.state.rooms == s.rooms
  {
    if bookingId !in s.payments then
      Step(s, Err(PaymentNotFound))
    else
      match BR.FindByID(s.bookings, bookingId)
      case Err(_) => Step(s, Err(BookingNotFound))
      case Ok(b) =>
        var p := s.payments[bookingId];
        if status == SuccessStatus then
          Step(s.(payments := s.payments[p.bookingId := p.(status := PaymentSuccess, transactionId := transactionId)],
                  bookings := s.bookings[b.id := b.(status := Confirmed)]),
               Ok(()))
        else
          var rooms := match RR.FindByID(s.rooms, b.roomId)
                       case Ok(room) => RR.SetAvailability(s.rooms, b.roomId, room.availability + 1)
                       case Err(_) => s.rooms;
          Step(s.(rooms := rooms,
                  payments := s.payments[p.bookingId := p.(status := PaymentFailed, transactionId := transactionId)],
                  bookings := s.bookings[b.id := b.(status := Cancelled)]),
               Ok(()))
  }

  /** A callback on an existing payment and booking: the payment gets SUCCESS or FAILED and the
      callback's transaction id, the booking CONFIRMED or CANCELLED, and on failure the booking's
      room (when it exists) gets exactly one more unit. Nothing else changes. */
  lemma CallbackEffect(s: State, bookingId: Id, transactionId: string, status: string)
    requires Valid(s) && bookingId in s.payments
    ensures var o := CallbackStep(s, bookingId, transactionId, status);
      var p := s.payments[bookingId];
      var b := s.bookings[bookingId];
      var ok := status == SuccessStatus;
      && o.result == Ok(())
      && o.state.payments == s.payments[bookingId :=
           p.(status := if ok then PaymentSuccess else PaymentFailed, transactionId := transactionId)]
      && o.state.bookings == s.bookings[bookingId := b.(status := if ok then Confirmed else Cancelled)]
      && o.state.rooms == (if !ok && b.roomId in s.rooms
                           then s.rooms[b.roomId := s.rooms[b.roomId].(availability := s.rooms[b.roomId].availability + 1)]
                           else s.rooms)
      && o.state.hotels == s.hotels && o.state.nextId == s.nextId
  {
  }

  /** The callback keeps the store's structure and availability non-negative; a non-success
      callback only ever deactivates a booking, so it also keeps active bookings from overlapping. */
  lemma CallbackPreservesInvariants(s: State, bookingId: Id, transactionId: string, status: string)
    requires Valid(s)
    ensures var t := CallbackStep(s, bookingId, transactionId, status).state;
      && Valid(t)
      && (AvailabilityNonNegative(s) ==> AvailabilityNonNegative(t))
      && (NoOverlap(s.bookings) && status != SuccessStatus ==> NoOverlap(t.bookings))
  {
  }

  /** A repeated SUCCESS callback changes nothing more. */
  lemma RepeatedSuccessIdempotent(s: State, bookingId: Id, transactionId: string)
    requires Valid(s)
    ensures var o := CallbackStep(s, bookingId, transactionId, SuccessStatus);
      CallbackStep(o.state, bookingId, transactionId, SuccessStatus) == o
  {
  }

  /** There is no status guard: a repeated non-success callback gives the unit back again. */
  lemma RepeatedFailureIncrementsAgain(s: State, bookingId: Id, transactionId: string, status: string)
    requires Valid(s) && bookingId in s.payments && s.bookings[bookingId].roomId in s.rooms
    requires status != SuccessStatus
    ensures var roomId := s.bookings[bookingId].roomId;
      var once := CallbackStep(s, bookingId, transactionId, status).state;
      var twice := CallbackStep(once, bookingId, transactionId, status).state;
      && once.rooms[roomId].availability == s.rooms[roomId].availability + 1
      && twice.rooms[roomId].availability == s.rooms[roomId].availability + 2
  {
    var once := CallbackStep(s, bookingId, transactionId, status).state;
    CallbackEffect(s, bookingId, transactionId, status);
    CallbackPreservesInvariants(s, bookingId, transactionId, status);
    CallbackEffect(once, bookingId, transactionId, status);
  }

  /** HandlePaymentCallback as the service runs it: load the payment by booking id, load the
      booking, set the statuses, give the unit back on failure, set the transaction id, then save
      the payment and the booking. */
  method HandlePaymentCallback(db: Database, bookingId: Id, transactionId: string, status: string)
    returns (r: Result<(), PaymentError>)
    requires Valid(db.Snapshot())
    modifies db
    ensures Step(db.Snapshot(), r) == CallbackStep(old(db.Snapshot()), bookingId, transactionId, status)
    ensures Valid(db.Snapshot())
  {
    CallbackPreservesInvariants(db.Snapshot(), bookingId, transactionId, status);
    if bookingId !in db.payments {
      return Err(PaymentNotFound);
    }
    var payment := db.payments[bookingId];
    var found := BR.FindByID(db.bookings, bookingId);
    if found.Err? {
      return Err(BookingNotFound);
    }
    var booking := found.value;
    if status == SuccessStatus {
      payment := payment.(status := PaymentSuccess, transactionId := transactionId);
      booking := booking.(status := Confirmed);
    } else {
      payment := payment.(status := PaymentFailed);
      booking := booking.(status := Cancelled);
      var room := RR.FindByID(db.rooms, booking.roomId);
      if room.Ok? {
        db.UpdateAvailability(booking.roomId, room.value.availability + 1);
      }
    }
    payment := payment.(transactionId := transactionId);
    db.SavePayment(payment);
    db.SaveBooking(booking);
    r := Ok(());
  }
}
