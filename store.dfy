/** The database the repositories share: the hotels, rooms, bookings and payments tables and a
    generator of fresh ids, both as a value (`State`) and as the mutable `Database` object whose
    write methods are the repositories' Create, Update (save) and UpdateAvailability calls. */
module Store {
  import opened Domain
  import BR = BookingRepository
  import RR = RoomRepository

  /** A snapshot of the database. The payments table is keyed by booking id, the column that
      carries the unique index. Hotel rows are only ever looked up by id, so the hotels table is
      kept as its set of ids. */
  datatype State = State(
    hotels: set<Id>,
    rooms: map<Id, Room>,
    bookings: map<Id, Booking>,
    payments: map<Id, Payment>,
    nextId: nat)

  /** The new state and the result of one service call. */
  datatype Step<+T, +E> = Step(state: State, result: Result<T, E>)

  /** What the database guarantees by construction: rows are stored under their own ids, every
      generated id is below `nextId` (so `nextId` is fresh), and every payment belongs to an
      existing booking through its booking_id key. */
  predicate Valid(s: State) {
    && RR.KeyedById(s.rooms) && RR.IdsBelow(s.rooms, s.nextId)
    && BR.KeyedById(s.bookings) && BR.IdsBelow(s.bookings, s.nextId)
    && (forall b | b in s.payments ::
          s.payments[b].bookingId == b && b in s.bookings && s.payments[b].id < s.nextId)
  }

  /** No room is oversold. */
  predicate AvailabilityNonNegative(s: State) {
    forall id | id in s.rooms :: s.rooms[id].availability >= 0
  }

  /** No two PENDING/CONFIRMED bookings on one room have overlapping stays. */
  predicate NoOverlap(bookings: map<Id, Booking>) {
    forall i, j | i in bookings && j in bookings && i != j ::
      bookings[i].roomId == bookings[j].roomId && IsActive(bookings[i]) && IsActive(bookings[j])
      ==> !BR.Overlaps(bookings[i], bookings[j])
  }

  class Database {
    var hotels: set<Id>
    var rooms: map<Id, Room>
    var bookings: map<Id, Booking>
    var payments: map<Id, Payment>
    var nextId: nat

    function Snapshot(): State
      reads this
    {
      State(hotels, rooms, bookings, payments, nextId)
    }

    /** A database with the given hotels and no rooms, bookings or payments. */
    constructor (hotels: set<Id>)
      ensures Snapshot() == State(hotels, map[], map[], map[], 0)
      ensures Valid(Snapshot())
    {
      this.hotels := hotels;
      rooms, bookings, payments := map[], map[], map[];
      nextId := 0;
    }

    /** Room Create: the row gets a freshly generated id, and a zero availability the column
        default. */
    method InsertRoom(r: Room) returns (id: Id)
      modifies this
      ensures id == old(nextId)
      ensures Snapshot() == old(Snapshot()).(rooms := old(rooms)[id := RR.WithDefaults(r).(id := id)], nextId := id + 1)
      ensures rooms[id].availability == (if r.availability == 0 then RR.AvailabilityDefault else r.availability)
    {
      id := nextId;
      rooms := rooms[id := RR.WithDefaults(r).(id := id)];
      nextId := nextId + 1;
    }

    /** Room Update (a save): the row with the same id is replaced. */
    method SaveRoom(r: Room)
      modifies this
      ensures Snapshot() == old(Snapshot()).(rooms := old(rooms)[r.id := r])
    {
      rooms := rooms[r.id := r];
    }

    /** UpdateAvailability: an UPDATE of one column of the row with that id. */
    method UpdateAvailability(id: Id, v: int)
      modifies this
      ensures Snapshot() == old(Snapshot()).(rooms := RR.SetAvailability(old(rooms), id, v))
    {
      if id in rooms {
        rooms := rooms[id := rooms[id].(availability := v)];
      }
    }

    /** Booking Create: the row gets a freshly generated id and its creation time `now`. */
    method InsertBooking(b: Booking, now: int) returns (id: Id)
      modifies this
      ensures id == old(nextId)
      ensures Snapshot() == old(Snapshot()).(
        bookings := old(bookings)[id := b.(id := id, createdAt := now)], nextId := id + 1)
    {
      id := nextId;
      bookings := bookings[id := b.(id := id, createdAt := now)];
      nextId := nextId + 1;
    }

    /** Booking Update (a save): the row with the same id is replaced. */
    method SaveBooking(b: Booking)
      modifies this
      ensures Snapshot() == old(Snapshot()).(bookings := old(bookings)[b.id := b])
    {
      bookings := bookings[b.id := b];
    }

    /** Payment Create: the row gets a freshly generated id. The unique index on booking_id is
        the precondition. */
    method InsertPayment(p: Payment) returns (id: Id)
      requires p.bookingId !in payments
      modifies this
      ensures id == old(nextId)
      ensures Snapshot() == old(Snapshot()).(
        payments := old(payments)[p.bookingId := p.(id := id)], nextId := id + 1)
    {
      id := nextId;
      payments := payments[p.bookingId := p.(id := id)];
      nextId := nextId + 1;
    }

    /** Payment Update (a save) of a row loaded from the table. */
    method SavePayment(p: Payment)
      modifies this
      ensures Snapshot() == old(Snapshot()).(payments := old(payments)[p.bookingId := p])
    {
      payments := payments[p.bookingId := p];
    }
  }
}
