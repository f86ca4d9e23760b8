/** The generic ticket routes: booking a number of tickets, listing the caller's bookings and
    cancelling one. Each handler is a function from the store before the request to its reply
    and the store after it. */
module Bookings {
  import opened Wrappers
  import opened EventModel
  import opened SeatModel
  import opened BookingModel
  import opened Store
  import Sorting
  import Query

  /** The body of `POST /events/:id/book`; `detailsValid` stands for the name and e-mail
      validators, which the model does not spell out. */
  datatype TicketRequest = TicketRequest(
    user: UserId,
    event: EventId,
    userName: string,
    userEmail: string,
    tickets: int,
    detailsValid: bool)

  predicate RequestValid(req: TicketRequest) {
    req.detailsValid && MinTickets <= req.tickets <= MaxTickets
  }

  /** The booking handler, parameterised by the `totalAmount` it stores. Guards run in order;
      then the booking is saved, then the decremented event. */
  function PlaceTickets(db: Db, req: TicketRequest, now: int, totalAmount: Option<int>): (Result<BookingId, Error>, Db) {
    if !RequestValid(req) then (Failure(InvalidInput), db)
    else if req.event >= |db.events| then (Failure(NotFound), db)
    else
      var event := db.events[req.event];
      if event.date < now then (Failure(PastEvent), db)
      else if event.availableSeats < req.tickets then (Failure(NotEnoughSeats(event.availableSeats)), db)
      else if HasConfirmed(db.bookings, req.user, req.event) then (Failure(AlreadyBooked), db)
      else
        var booking := NewTicketBooking(req, now, totalAmount);
        var updated := event.(availableSeats := event.availableSeats - req.tickets);
        match SaveNewBooking(db, booking)
        case None => (Failure(ServerError), db)
        case Some(db1) =>
          match SaveEvent(db1, req.event, updated, now)
          case None => (Failure(ServerError), db1)
          case Some(db2) => (Success(|db.bookings|), db2)
  }

  function NewTicketBooking(req: TicketRequest, now: int, totalAmount: Option<int>): Booking {
    Booking(req.user, req.event, req.userName, req.userEmail, req.tickets, [], totalAmount, Confirmed, now)
  }

  /** The handler as written: the booking it builds carries no `totalAmount`. */
  function BookTickets(db: Db, req: TicketRequest, now: int): (Result<BookingId, Error>, Db) {
    PlaceTickets(db, req, now, None)
  }

  /** The handler with the total a ticket booking evidently should carry: zero. */
  function BookTicketsCorrected(db: Db, req: TicketRequest, now: int): (Result<BookingId, Error>, Db) {
    PlaceTickets(db, req, now, Some(0))
  }

  /** As written, `booking.save()` always fails the required `totalAmount` validator, so no
      ticket booking is ever stored and no counter ever moves. */
  lemma BookTicketsNeverSucceeds(db: Db, req: TicketRequest, now: int)
    ensures BookTickets(db, req, now).0.Failure?
    ensures BookTickets(db, req, now).1 == db
    ensures RequestValid(req) && req.event < |db.events| && !(db.events[req.event].date < now)
      && db.events[req.event].availableSeats >= req.tickets
      && !HasConfirmed(db.bookings, req.user, req.event)
      ==> BookTickets(db, req, now).0 == Failure(ServerError)
  {
  }

  /** With the total set, a request that passes every guard on a consistent store is stored:
      it gets the next booking id. */
  lemma BookTicketsCorrectedSucceeds(db: Db, req: TicketRequest, now: int)
    requires Consistent(db)
    ensures RequestValid(req) && req.event < |db.events| && !(db.events[req.event].date < now)
      && db.events[req.event].availableSeats >= req.tickets
      && !HasConfirmed(db.bookings, req.user, req.event)
      ==> BookTicketsCorrected(db, req, now).0 == Success(|db.bookings|)
  {
    PlaceTicketsRejections(db, req, now, Some(0));
  }

  /** The guards fire in the source's order, and every rejection leaves the store as it was. */
  lemma {:induction false} PlaceTicketsRejections(db: Db, req: TicketRequest, now: int, totalAmount: Option<int>)
    requires Consistent(db)
    ensures var (r, db') := PlaceTickets(db, req, now, totalAmount);
      && (r.Failure? ==> db' == db)
      && (!RequestValid(req) ==> r == Failure(InvalidInput))
      && (RequestValid(req) && req.event >= |db.events| ==> r == Failure(NotFound))
      && (RequestValid(req) && req.event < |db.events| ==>
            var e := db.events[req.event];
            && (e.date < now ==> r == Failure(PastEvent))
            && (!(e.date < now) && e.availableSeats < req.tickets ==> r == Failure(NotEnoughSeats(e.availableSeats)))
            && ((!(e.date < now) && e.availableSeats >= req.tickets && HasConfirmed(db.bookings, req.user, req.event))
                  ==> r == Failure(AlreadyBooked))
            && ((!(e.date < now) && e.availableSeats >= req.tickets && !HasConfirmed(db.bookings, req.user, req.event))
                  ==> (r.Success? <==> totalAmount.Some? && totalAmount.value >= 0)))
  {
    if RequestValid(req) && req.event < |db.events| {
      var e := db.events[req.event];
      assert e in db.events;
      if !(e.date < now) && e.availableSeats >= req.tickets && !HasConfirmed(db.bookings, req.user, req.event) {
        var b := NewTicketBooking(req, now, totalAmount);
        assert !ClashesWithIndex(db.bookings, -1, b);
      }
    }
  }

  /** A successful booking appends one Confirmed booking for the caller with the requested
      tickets, takes exactly that many seats off the event, which stays non-negative, and
      changes nothing else. */
  lemma PlaceTicketsSuccess(db: Db, req: TicketRequest, now: int, totalAmount: Option<int>)
    requires PlaceTickets(db, req, now, totalAmount).0.Success?
    ensures var (r, db') := PlaceTickets(db, req, now, totalAmount);
      && req.event < |db.events|
      && r.value == |db.bookings|
      && db'.bookings == db.bookings + [NewTicketBooking(req, now, totalAmount)]
      && db'.bookings[r.value].status == Confirmed && db'.bookings[r.value].tickets == req.tickets
      && db'.events == db.events[req.event := db.events[req.event].(availableSeats := db.events[req.event].availableSeats - req.tickets)]
      && 0 <= db'.events[req.event].availableSeats == db.events[req.event].availableSeats - req.tickets
      && db'.seats == db.seats
  {
  }

  /** The `GET /bookings` query: the caller's bookings, then `sort({createdAt: -1})`. */
  function NewerFirst(bookings: seq<Booking>): (BookingId, BookingId) -> bool {
    (a: BookingId, b: BookingId) => CreatedAt(bookings, a) >= CreatedAt(bookings, b)
  }

  function CreatedAt(bookings: seq<Booking>, id: BookingId): int {
    if id < |bookings| then bookings[id].createdAt else 0
  }

  datatype BookingView = BookingView(
    id: BookingId,
    event: EventId,
    eventName: string,
    date: int,
    location: string,
    userName: string,
    userEmail: string,
    tickets: int,
    status: BookingStatus)

  function View(db: Db, id: BookingId): BookingView
    requires id < |db.bookings| && db.bookings[id].event < |db.events|
  {
    var b := db.bookings[id];
    var e := db.events[b.event];
    BookingView(id, b.event, e.name, e.date, e.location, b.userName, b.userEmail, b.tickets, b.status)
  }

  /** The filter `{user}`. */
  function OwnedBy(user: UserId): (BookingId, Booking) -> bool {
    (id: BookingId, b: Booking) => b.user == user
  }

  function UserBookingIds(db: Db, user: UserId): seq<BookingId> {
    Sorting.InsertionSort(Query.Matching(db.bookings, OwnedBy(user)), NewerFirst(db.bookings))
  }

  /** `GET /bookings`: the caller's bookings, newest first, joined with their events. A booking
      whose event is gone makes the handler read a field of `null`, which is a server error. */
  function ListBookings(db: Db, user: UserId): Result<seq<BookingView>, Error> {
    var ids := UserBookingIds(db, user);
    if forall i :: 0 <= i < |ids| ==> ids[i] < |db.bookings| && db.bookings[ids[i]].event < |db.events| then
      Success(seq(|ids|, i requires 0 <= i < |ids| => View(db, ids[i])))
    else Failure(ServerError)
  }

  lemma NewerFirstTotal(bookings: seq<Booking>)
    ensures Sorting.TotalPreorder(NewerFirst(bookings))
  {
  }

  /** The ids the query yields: exactly the caller's bookings, each once, newest first. */
  lemma UserBookingIdsSpec(db: Db, user: UserId)
    ensures var ids := UserBookingIds(db, user);
      && (forall i :: 0 <= i < |ids| ==> ids[i] < |db.bookings| && db.bookings[ids[i]].user == user)
      && (forall id :: 0 <= id < |db.bookings| && db.bookings[id].user == user ==> id in ids)
      && Sorting.Distinct(ids)
      && Sorting.Sorted(ids, NewerFirst(db.bookings))
  {
    var found := Query.Matching(db.bookings, OwnedBy(user));
    UserBookingIdsMembers(db, user);
    NewerFirstTotal(db.bookings);
    Sorting.InsertionSortSorted<BookingId>(found, NewerFirst(db.bookings));
    assert Sorting.Distinct(found);
    Sorting.InsertionSortDistinct<BookingId>(found, NewerFirst(db.bookings));
  }

  lemma UserBookingIdsMembers(db: Db, user: UserId)
    ensures var ids := UserBookingIds(db, user);
      && (forall i :: 0 <= i < |ids| ==> ids[i] < |db.bookings| && db.bookings[ids[i]].user == user)
      && (forall id :: 0 <= id < |db.bookings| && db.bookings[id].user == user ==> id in ids)
  {
    var keep := OwnedBy(user);
    var found := Query.Matching(db.bookings, keep);
    var ids := UserBookingIds(db, user);
    forall i | 0 <= i < |ids| ensures ids[i] < |db.bookings| && db.bookings[ids[i]].user == user {
      Sorting.InsertionSortMembers<BookingId>(found, NewerFirst(db.bookings), ids[i]);
    }
    forall id | 0 <= id < |db.bookings| && db.bookings[id].user == user ensures id in ids {
      assert keep(id, db.bookings[id]);
      Sorting.InsertionSortMembers<BookingId>(found, NewerFirst(db.bookings), id);
    }
  }

  /** The list holds every booking of the caller, Confirmed and Cancelled alike, each once and
      no one else's, with its ticket count and status, ordered newest first. */
  lemma ListBookingsSpec(db: Db, user: UserId)
    requires Consistent(db)
    ensures ListBookings(db, user).Success?
    ensures var vs := ListBookings(db, user).value;
      && (forall i :: 0 <= i < |vs| ==>
            && vs[i].id < |db.bookings| && db.bookings[vs[i].id].user == user
            && vs[i].tickets == db.bookings[vs[i].id].tickets && vs[i].status == db.bookings[vs[i].id].status)
      && (forall id :: 0 <= id < |db.bookings| && db.bookings[id].user == user ==>
            exists i :: 0 <= i < |vs| && vs[i].id == id)
      && (forall i, j :: 0 <= i < j < |vs| ==>
            vs[i].id != vs[j].id && db.bookings[vs[i].id].createdAt >= db.bookings[vs[j].id].createdAt)
  {
    var ids := UserBookingIds(db, user);
    UserBookingIdsSpec(db, user);
    forall i | 0 <= i < |ids| ensures db.bookings[ids[i]].event < |db.events| {
      assert db.bookings[ids[i]] in db.bookings;
    }
    var vs := seq(|ids|, i requires 0 <= i < |ids| => View(db, ids[i]));
    assert ListBookings(db, user) == Success(vs);
    ViewsOfSpec(db, user, ids);
  }

  /** The views of a query's ids carry those ids, in the same order. */
  lemma ViewsOfSpec(db: Db, user: UserId, ids: seq<BookingId>)
    requires forall i :: 0 <= i < |ids| ==>
      ids[i] < |db.bookings| && db.bookings[ids[i]].user == user && db.bookings[ids[i]].event < |db.events|
    requires forall id :: 0 <= id < |db.bookings| && db.bookings[id].user == user ==> id in ids
    requires Sorting.Distinct(ids) && Sorting.Sorted(ids, NewerFirst(db.bookings))
    ensures var vs := seq(|ids|, i requires 0 <= i < |ids| => View(db, ids[i]));
      && (forall i :: 0 <= i < |vs| ==>
            && vs[i].id < |db.bookings| && db.bookings[vs[i].id].user == user
            && vs[i].tickets == db.bookings[vs[i].id].tickets && vs[i].status == db.bookings[vs[i].id].status)
      && (forall id :: 0 <= id < |db.bookings| && db.bookings[id].user == user ==>
            exists i :: 0 <= i < |vs| && vs[i].id == id)
      && (forall i, j :: 0 <= i < j < |vs| ==>
            vs[i].id != vs[j].id && db.bookings[vs[i].id].createdAt >= db.bookings[vs[j].id].createdAt)
  {
    var vs := seq(|ids|, i requires 0 <= i < |ids| => View(db, ids[i]));
    forall i, j | 0 <= i < j < |vs|
      ensures vs[i].id != vs[j].id && db.bookings[vs[i].id].createdAt >= db.bookings[vs[j].id].createdAt
    {
      assert NewerFirst(db.bookings)(ids[i], ids[j]);
    }
    forall id | 0 <= id < |db.bookings| && db.bookings[id].user == user
      ensures exists i :: 0 <= i < |vs| && vs[i].id == id
    {
      var i :| 0 <= i < |ids| && ids[i] == id;
      assert vs[i].id == id;
    }
  }

  /** `POST /bookings/:id/cancel`: ownership, status and event date are checked in that
      order; then the event gets the tickets back and is saved, then the booking. Seat
      statuses are not touched and the counter is not capped at `total_seats`. */
  function CancelBooking(db: Db, user: UserId, id: BookingId, now: int): (Result<(), Error>, Db) {
    if id >= |db.bookings| || db.bookings[id].user != user then (Failure(NotFound), db)
    else
      var booking := db.bookings[id];
      if booking.status == Cancelled then (Failure(AlreadyCancelled), db)
      else if booking.event >= |db.events| then (Failure(ServerError), db)
      else
        var event := db.events[booking.event];
        if event.date < now then (Failure(PastEvent), db)
        else
          var restored := event.(availableSeats := event.availableSeats + booking.tickets);
          match SaveEvent(db, booking.event, restored, now)
          case None => (Failure(ServerError), db)
          case Some(db1) =>
            match SaveBooking(db1, id, booking.(status := Cancelled))
            case None => (Failure(ServerError), db1)
            case Some(db2) => (Success(()), db2)
  }

  /** Cancelling someone else's or an unknown booking is NotFound, a cancelled one
      AlreadyCancelled, one for a past event PastEvent; none of them changes the store.
      Otherwise the cancel succeeds: the booking becomes Cancelled, the event regains exactly
      its tickets, and the seats are left as they were. */
  lemma {:induction false} CancelBookingSpec(db: Db, user: UserId, id: BookingId, now: int)
    requires Consistent(db)
    ensures var (r, db') := CancelBooking(db, user, id, now);
      && (r.Failure? ==> db' == db)
      && ((id >= |db.bookings| || db.bookings[id].user != user) ==> r == Failure(NotFound))
      && (id < |db.bookings| && db.bookings[id].user == user ==>
            var b := db.bookings[id];
            && (b.status == Cancelled ==> r == Failure(AlreadyCancelled))
            && (b.status == Confirmed && db.events[b.event].date < now ==> r == Failure(PastEvent))
            && (b.status == Confirmed && !(db.events[b.event].date < now) ==>
                  && r.Success?
                  && db'.bookings == db.bookings[id := b.(status := Cancelled)]
                  && db'.events == db.events[b.event := db.events[b.event].(availableSeats := db.events[b.event].availableSeats + b.tickets)]
                  && db'.seats == db.seats))
  {
    if id < |db.bookings| && db.bookings[id].user == user {
      var b := db.bookings[id];
      assert b in db.bookings;
      var e := db.events[b.event];
      assert e in db.events;
    }
  }

  /** Booking tickets (with the corrected total) and then cancelling that booking gives every
      event back its original counter and leaves the seats alone. */
  lemma BookThenCancelRestores(db: Db, req: TicketRequest, now: int)
    requires Consistent(db)
    requires BookTicketsCorrected(db, req, now).0.Success?
    ensures var (r, db1) := BookTicketsCorrected(db, req, now);
      var (c, db2) := CancelBooking(db1, req.user, r.value, now);
      && c.Success?
      && db2.events == db.events
      && db2.seats == db.seats
      && db2.bookings == db.bookings + [NewTicketBooking(req, now, Some(0)).(status := Cancelled)]
  {
    var (r, db1) := BookTicketsCorrected(db, req, now);
    PlaceTicketsSuccess(db, req, now, Some(0));
    BookTicketsConsistent(db, req, now, Some(0));
    CancelBookingSpec(db1, req.user, r.value, now);
    assert db1.events[req.event].date == db.events[req.event].date;
    var (c, db2) := CancelBooking(db1, req.user, r.value, now);
    assert db2.events[req.event] == db.events[req.event];
    assert db2.events == db.events;
  }

  /** Once the (only) Confirmed booking of a user for an event is cancelled, the
      duplicate-booking guard no longer stops that user booking the event again. */
  lemma CancelAllowsRebooking(db: Db, user: UserId, id: BookingId, now: int)
    requires Consistent(db)
    requires CancelBooking(db, user, id, now).0.Success?
    ensures var db' := CancelBooking(db, user, id, now).1;
      !HasConfirmed(db'.bookings, user, db.bookings[id].event)
  {
    CancelBookingSpec(db, user, id, now);
    var db' := CancelBooking(db, user, id, now).1;
    var b := db.bookings[id];
    forall j | 0 <= j < |db'.bookings| ensures !ConfirmedFor(db'.bookings[j], user, b.event) {
      if j < id {
        assert !ConfirmedFor(db.bookings[id], db.bookings[j].user, db.bookings[j].event) || db.bookings[j].status != Confirmed;
      } else if j > id {
        assert !ConfirmedFor(db.bookings[j], b.user, b.event);
      }
    }
  }

  lemma BookTicketsConsistent(db: Db, req: TicketRequest, now: int, totalAmount: Option<int>)
    requires Consistent(db)
    ensures Consistent(PlaceTickets(db, req, now, totalAmount).1)
  {
    if RequestValid(req) && req.event < |db.events| {
      var event := db.events[req.event];
      if !(event.date < now) && event.availableSeats >= req.tickets && !HasConfirmed(db.bookings, req.user, req.event) {
        var booking := NewTicketBooking(req, now, totalAmount);
        var updated := event.(availableSeats := event.availableSeats - req.tickets);
        if SaveNewBooking(db, booking).Some? {
          SaveNewBookingConsistent(db, booking);
          var db1 := SaveNewBooking(db, booking).value;
          if SaveEvent(db1, req.event, updated, now).Some? {
            SaveEventConsistent(db1, req.event, updated, now);
          }
        }
      }
    }
  }

  lemma CancelBookingConsistent(db: Db, user: UserId, id: BookingId, now: int)
    requires Consistent(db)
    ensures Consistent(CancelBooking(db, user, id, now).1)
  {
    if id < |db.bookings| && db.bookings[id].user == user {
      var booking := db.bookings[id];
      if booking.status == Confirmed && booking.event < |db.events| {
        var event := db.events[booking.event];
        var restored := event.(availableSeats := event.availableSeats + booking.tickets);
        if !(event.date < now) && SaveEvent(db, booking.event, restored, now).Some? {
          SaveEventConsistent(db, booking.event, restored, now);
          var db1 := SaveEvent(db, booking.event, restored, now).value;
          assert booking in db.bookings;
          if SaveBooking(db1, id, booking.(status := Cancelled)).Some? {
            SaveBookingConsistent(db1, id, booking.(status := Cancelled));
          }
        }
      }
    }
  }

  /** Cancel adds the tickets back with no upper bound: when the counter plus the booking's
      tickets exceeds `total_seats`, the cancel still succeeds and leaves more seats available
      than the event has. */
  lemma CancelDoesNotClamp(db: Db, user: UserId, id: BookingId, now: int)
    requires Consistent(db) && id < |db.bookings|
    requires db.bookings[id].user == user && db.bookings[id].status == Confirmed
    requires !(db.events[db.bookings[id].event].date < now)
    ensures var b := db.bookings[id];
      var (r, db') := CancelBooking(db, user, id, now);
      && r.Success?
      && db'.events[b.event].availableSeats == db.events[b.event].availableSeats + b.tickets
      && (db.events[b.event].availableSeats + b.tickets > db.events[b.event].totalSeats ==>
            db'.events[b.event].availableSeats > db'.events[b.event].totalSeats)
  {
    CancelBookingSpec(db, user, id, now);
  }

  /** A consistent store in which that happens: an event whose counter is already full and
      one Confirmed one-ticket booking for it. */
  lemma CancelOverfillsExample()
    ensures var db := Db([Event("Gig", 100, "Hall", "", 2, 2, false, None)], [],
                         [Booking(0, 0, "Ann", "ann@example.org", 1, [], Some(0), Confirmed, 0)]);
      && Consistent(db)
      && CancelBooking(db, 0, 0, 0).0.Success?
      && CancelBooking(db, 0, 0, 0).1.events[0].availableSeats == 3
      && CancelBooking(db, 0, 0, 0).1.events[0].totalSeats == 2
  {
    var db := Db([Event("Gig", 100, "Hall", "", 2, 2, false, None)], [],
                 [Booking(0, 0, "Ann", "ann@example.org", 1, [], Some(0), Confirmed, 0)]);
    assert IndexUnique(db.seats);
    assert ConfirmedUnique(db.bookings);
    assert Consistent(db);
    CancelDoesNotClamp(db, 0, 0, 0);
  }
}
