/** Entities of the reservation core: rooms, bookings and payments, with their status values.
    Identifiers (UUIDs in the system) are naturals, timestamps are integer hours and money is
    an integer amount of minor currency units. */
module Domain {

  type Id = nat

  /** The four booking statuses; PENDING is the default a new row gets. */
  datatype BookingStatus = Pending | Confirmed | Cancelled | Completed

  /** The three payment statuses. */
  datatype PaymentStatus = PaymentPending | PaymentSuccess | PaymentFailed

  datatype Room = Room(id: Id, hotelId: Id, roomType: string, pricePerNight: int, availability: int)

  /** `createdAt` is the row's creation time, stamped by the store on insert. */
  datatype Booking = Booking(
    id: Id,
    userId: Id,
    roomId: Id,
    checkIn: int,
    checkOut: int,
    totalPrice: int,
    status: BookingStatus,
    createdAt: int)

  /** A payment row; `bookingId` carries a unique index, so a booking has at most one payment. */
  datatype Payment = Payment(id: Id, bookingId: Id, amount: int, status: PaymentStatus, transactionId: string)

  /** The user roles. */
  const RoleCustomer: string := "CUSTOMER"
  const RoleAdmin: string := "ADMIN"

  /** A booking holds its dates while it is PENDING or CONFIRMED. */
  predicate IsActive(b: Booking) {
    b.status == Pending || b.status == Confirmed
  }

  /** The store's not-found error for a lookup by key. */
  datatype StoreError = RecordNotFound

  datatype Option<+T> = None | Some(value: T)

  datatype Result<+T, +E> = Ok(value: T) | Err(error: E)
}
