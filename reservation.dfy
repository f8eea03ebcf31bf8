/** The reservation state machine as a whole: each state-changing service call is one step over
    the database, and the invariants are stated over any sequence of steps. */
module Reservation {
  import opened Domain
  import opened Store
  import BR = BookingRepository
  import BS = BookingService
  import PS = PaymentService
  import RS = RoomService

  /** The service calls that change the database. */
  datatype Op =
    | CreateBooking(userId: Id, roomId: Id, checkIn: int, checkOut: int, now: int)
    | CancelBooking(userId: Id, bookingId: Id)
    | PaymentCallback(bookingId: Id, transactionId: string, status: string)
    | CreateRoom(room: Room)
    | UpdateRoom(room: Room)

  function Apply(s: State, op: Op): State {
    match op
    case CreateBooking(u, r, ci, co, now) => BS.CreateStep(s, u, r, ci, co, now).state
    case CancelBooking(u, b) => BS.CancelStep(s, u, b).state
    case PaymentCallback(b, tx, st) => PS.CallbackStep(s, b, tx, st).state
    case CreateRoom(room) => RS.CreateRoomStep(s, room).state
    case UpdateRoom(room) => RS.UpdateRoomStep(s, room).state
  }

  /** The calls of `ops`, one after another. */
  function Run(s: State, ops: seq<Op>): State
    decreases |ops|
  {
    if ops == [] then s else Run(Apply(s, ops[0]), ops[1..])
  }

  /** A SUCCESS payment callback: the one call that can re-activate a booking. */
  predicate IsSuccessCallback(op: Op) {
    op.PaymentCallback? && op.status == PS.SuccessStatus
  }

  /** One call keeps the store's structure and every availability non-negative; every call
      except a SUCCESS payment callback also keeps active bookings on a room from overlapping. */
  lemma ApplyPreserves(s: State, op: Op)
    requires Valid(s)
    ensures var t := Apply(s, op);
      && Valid(t)
      && (AvailabilityNonNegative(s) ==> AvailabilityNonNegative(t))
      && (NoOverlap(s.bookings) && !IsSuccessCallback(op) ==> NoOverlap(t.bookings))
  {
    match op
    case CreateBooking(u, r, ci, co, now) => BS.CreatePreservesInvariants(s, u, r, ci, co, now);
    case CancelBooking(u, b) => BS.CancelPreservesInvariants(s, u, b);
    case PaymentCallback(b, tx, st) => PS.CallbackPreservesInvariants(s, b, tx, st);
    case CreateRoom(room) => RS.RoomWritesPreserveInvariants(s, room);
    case UpdateRoom(room) => RS.RoomWritesPreserveInvariants(s, room);
  }

  /** No sequence of calls oversells a room. */
  lemma {:induction false} RunKeepsAvailabilityNonNegative(s: State, ops: seq<Op>)
    requires Valid(s) && AvailabilityNonNegative(s)
    ensures Valid(Run(s, ops)) && AvailabilityNonNegative(Run(s, ops))
    decreases |ops|
  {
    if ops != [] {
      ApplyPreserves(s, ops[0]);
      RunKeepsAvailabilityNonNegative(Apply(s, ops[0]), ops[1..]);
    }
  }

  /** Without SUCCESS payment callbacks, no sequence of calls double-books a room. */
  lemma {:induction false} RunWithoutSuccessCallbacksKeepsNoOverlap(s: State, ops: seq<Op>)
    requires Valid(s) && NoOverlap(s.bookings)
    requires forall i | 0 <= i < |ops| :: !IsSuccessCallback(ops[i])
    ensures NoOverlap(Run(s, ops).bookings)
    decreases |ops|
  {
    if ops != [] {
      ApplyPreserves(s, ops[0]);
      RunWithoutSuccessCallbacksKeepsNoOverlap(Apply(s, ops[0]), ops[1..]);
    }
  }

  /** A database with one hotel holding one room, id 0, priced 100 a night with the given
      number of units; the room row is already in the table. */
  const Hotel: Id := 7

  function Deluxe(availability: int): Room {
    Room(0, Hotel, "DELUXE", 100, availability)
  }

  function Seeded(availability: int): State {
    State({Hotel}, map[0 := Deluxe(availability)], map[], map[], 1)
  }

  /** Cancelling does not give the unit back. With one unit: a two-night booking costs 200 and
      takes the unit; an overlapping request is refused for the dates; after the cancel the unit
      is still gone, so the same dates are then refused as sold out. */
  lemma CancelKeepsUnit()
    ensures var s1 := Seeded(1);
      var s2 := BS.CreateStep(s1, 1, 0, 0, 48, 0);
      var s3 := BS.CreateStep(s2.state, 2, 0, 24, 72, 1);
      var s4 := BS.CancelStep(s3.state, 1, 1);
      var s5 := BS.CreateStep(s4.state, 2, 0, 0, 48, 2);
      && s2.result.Ok? && s2.result.value.totalPrice == 200 && s2.state.rooms[0].availability == 0
      && s3.result == Err(BS.RoomBookedForDates)
      && s4.result == Ok(()) && s4.state.rooms[0].availability == 0
      && s5.result == Err(BS.RoomSoldOut)
  {
    var s1 := Seeded(1);
    var s2 := BS.CreateStep(s1, 1, 0, 0, 48, 0);
    assert !BS.HasConflict(s1, 0, 0, 48);
    assert s2.state.bookings[1].status == Pending;
    assert BR.ConflictsWith(s2.state.bookings[1], 0, 24, 72);
    var s3 := BS.CreateStep(s2.state, 2, 0, 24, 72, 1);
    var s4 := BS.CancelStep(s3.state, 1, 1);
    assert s4.state.bookings.Keys == {1};
    assert !BS.HasConflict(s4.state, 0, 0, 48);
  }

  /** With two units: a booking is made and cancelled, then a second booking takes the same
      dates. */
  function Rebooked(): State {
    var s2 := BS.CreateStep(Seeded(2), 1, 0, 0, 48, 0).state;
    var s3 := BS.CancelStep(s2, 1, 1).state;
    BS.CreateStep(s3, 2, 0, 0, 48, 1).state
  }

  /** The rebooked database is reached by calls without a callback, so it is still consistent. */
  lemma RebookedConsistent()
    ensures var s4 := Rebooked();
      && Valid(s4) && AvailabilityNonNegative(s4) && NoOverlap(s4.bookings)
      && s4.bookings.Keys == {1, 3} && 1 in s4.payments
      && s4.bookings[1].roomId == 0 && s4.bookings[1].checkIn == 0 && s4.bookings[1].checkOut == 48
      && s4.bookings[3].roomId == 0 && s4.bookings[3].checkIn == 0 && s4.bookings[3].checkOut == 48
      && s4.bookings[3].status == Pending
  {
    var ops := [CreateBooking(1, 0, 0, 48, 0), CancelBooking(1, 1), CreateBooking(2, 0, 0, 48, 1)];
    var s1 := Seeded(2);
    assert Valid(s1) && NoOverlap(s1.bookings);
    var s2 := BS.CreateStep(s1, 1, 0, 0, 48, 0).state;
    assert !BS.HasConflict(s1, 0, 0, 48);
    var s3 := BS.CancelStep(s2, 1, 1).state;
    assert s3.bookings.Keys == {1} && s3.bookings[1].status == Cancelled;
    assert !BS.HasConflict(s3, 0, 0, 48);
    assert Run(s1, ops) == Rebooked();
    RunWithoutSuccessCallbacksKeepsNoOverlap(s1, ops);
    RunKeepsAvailabilityNonNegative(s1, ops);
  }

  /** The callback has no status guard, so a SUCCESS callback for a cancelled booking confirms it
      again: after the rebooking, the first booking's SUCCESS callback makes two active bookings
      on the same room overlap. */
  lemma SuccessCallbackCanDoubleBook()
    ensures var s4 := Rebooked();
      var s5 := PS.CallbackStep(s4, 1, "tx-1", PS.SuccessStatus).state;
      && Valid(s4) && AvailabilityNonNegative(s4) && NoOverlap(s4.bookings)
      && !NoOverlap(s5.bookings)
  {
    RebookedConsistent();
    var s4 := Rebooked();
    var s5 := PS.CallbackStep(s4, 1, "tx-1", PS.SuccessStatus).state;
    assert s5.bookings[1].status == Confirmed && s5.bookings[3].status == Pending;
    assert BR.Overlaps(s5.bookings[1], s5.bookings[3]);
  }
}
