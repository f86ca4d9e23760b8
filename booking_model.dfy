/** The booking document: the ticket bounds, the required total, the status enum and the
    partial unique index that allows one Confirmed booking per (user, event). */
module BookingModel {
  import opened Wrappers
  import opened EventModel
  import opened SeatModel

  type BookingId = nat
  type UserId = nat

  const MinTickets := 1
  const MaxTickets := 10

  datatype BookingStatus = Confirmed | Cancelled

  /** `totalAmount` is `None` when the creating code never set it; `createdAt` is the
      timestamp the schema's `timestamps` option records on the first save. */
  datatype Booking = Booking(
    user: UserId,
    event: EventId,
    userName: string,
    userEmail: string,
    tickets: int,
    seats: seq<SeatId>,
    totalAmount: Option<int>,
    status: BookingStatus,
    createdAt: int)

  /** Tickets in 1..10 and a present, non-negative total amount. */
  predicate Valid(b: Booking) {
    && MinTickets <= b.tickets <= MaxTickets
    && b.totalAmount.Some? && b.totalAmount.value >= 0
  }

  predicate ConfirmedFor(b: Booking, user: UserId, event: EventId) {
    b.status == Confirmed && b.user == user && b.event == event
  }

  /** The query `{user, event, status: 'Confirmed'}` finds a document. */
  predicate HasConfirmed(bookings: seq<Booking>, user: UserId, event: EventId) {
    exists i :: 0 <= i < |bookings| && ConfirmedFor(bookings[i], user, event)
  }

  /** Saving `b` at position `at` (or as a new document when `at` is not a position) would
      give a second Confirmed booking for its (user, event). */
  predicate ClashesWithIndex(bookings: seq<Booking>, at: int, b: Booking) {
    b.status == Confirmed &&
    exists j :: 0 <= j < |bookings| && j != at && ConfirmedFor(bookings[j], b.user, b.event)
  }

  /** The partial unique index: no two Confirmed bookings share (user, event); Cancelled
      bookings are not indexed at all. */
  predicate ConfirmedUnique(bookings: seq<Booking>) {
    forall i, j :: 0 <= i < j < |bookings| && bookings[i].status == Confirmed ==>
      !ConfirmedFor(bookings[j], bookings[i].user, bookings[i].event)
  }
}
