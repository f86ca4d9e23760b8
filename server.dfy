/** The store as the handlers see it: three collections updated in place. The write primitives
    validate and then assign a collection, or leave everything as it was and report the
    failure; the handlers run their guards on the current state and then call the primitives
    one after another, so a later failure does not undo an earlier write. Each handler's new
    state and reply are exactly those of its specification function in Bookings, Seats or
    Events, about which the properties are proved. */
module Server {
  import opened Wrappers
  import opened EventModel
  import opened SeatModel
  import opened BookingModel
  import opened Store
  import Bookings
  import Seats
  import Events
  import CreateSeatsScript
  import SeedSeatSystem

  class Database {
    var events: seq<Event>
    var seats: seq<Seat>
    var bookings: seq<Booking>

    function Snapshot(): Db
      reads this
    {
      Db(events, seats, bookings)
    }

    constructor(db: Db)
      ensures Snapshot() == db
    {
      events, seats, bookings := db.events, db.seats, db.bookings;
    }

    /** `event.save()` on a loaded event. */
    method SaveEvent(id: EventId, e: Event, now: int) returns (ok: bool)
      requires id < |events|
      modifies this
      ensures ok == Store.SaveEvent(old(Snapshot()), id, e, now).Some?
      ensures Snapshot() == if ok then Store.SaveEvent(old(Snapshot()), id, e, now).value else old(Snapshot())
    {
      ok := Savable(e, now);
      if ok {
        events := events[id := e];
      }
    }

    /** `event.save()` on a new event. */
    method SaveNewEvent(e: Event, now: int) returns (ok: bool)
      modifies this
      ensures ok == Store.SaveNewEvent(old(Snapshot()), e, now).Some?
      ensures Snapshot() == if ok then Store.SaveNewEvent(old(Snapshot()), e, now).value else old(Snapshot())
    {
      ok := Savable(e, now);
      if ok {
        events := events + [e];
      }
    }

    /** `booking.save()` on a loaded booking. */
    method SaveBooking(id: BookingId, b: Booking) returns (ok: bool)
      requires id < |bookings|
      modifies this
      ensures ok == Store.SaveBooking(old(Snapshot()), id, b).Some?
      ensures Snapshot() == if ok then Store.SaveBooking(old(Snapshot()), id, b).value else old(Snapshot())
    {
      ok := BookingModel.Valid(b) && !ClashesWithIndex(bookings, id, b);
      if ok {
        bookings := bookings[id := b];
      }
    }

    /** `booking.save()` on a new booking. */
    method SaveNewBooking(b: Booking) returns (ok: bool)
      modifies this
      ensures ok == Store.SaveNewBooking(old(Snapshot()), b).Some?
      ensures Snapshot() == if ok then Store.SaveNewBooking(old(Snapshot()), b).value else old(Snapshot())
    {
      ok := BookingModel.Valid(b) && !ClashesWithIndex(bookings, -1, b);
      if ok {
        bookings := bookings + [b];
      }
    }

    /** `Seat.updateMany({_id: {$in: ids}}, {status: 'booked'})`, seat by seat. */
    method MarkBooked(ids: seq<SeatId>)
      modifies this
      ensures seats == Store.MarkBooked(old(seats), ids)
      ensures events == old(events) && bookings == old(bookings)
    {
      var i := 0;
      while i < |seats|
        invariant 0 <= i <= |seats| == |old(seats)|
        invariant forall k :: 0 <= k < i ==> seats[k] == Store.MarkBooked(old(seats), ids)[k]
        invariant forall k :: i <= k < |seats| ==> seats[k] == old(seats)[k]
        invariant events == old(events) && bookings == old(bookings)
      {
        if i in ids {
          seats := seats[i := seats[i].(status := Booked)];
        }
        i := i + 1;
      }
    }

    /** `Seat.insertMany(docs)`, ordered: validate every document, then store them one by one
        until the first that the (event, seatNumber) index refuses. */
    method InsertSeats(docs: seq<Seat>) returns (outcome: InsertOutcome)
      modifies this
      ensures (outcome, Snapshot()) == Store.InsertSeats(old(Snapshot()), docs)
    {
      if exists k :: 0 <= k < |docs| && !SeatModel.Valid(docs[k]) {
        return ValidationFailed;
      }
      var i := 0;
      while i < |docs| && !Collides(seats, docs[i])
        invariant 0 <= i <= |docs|
        invariant seats == old(seats) + docs[..i]
        invariant InsertedPrefix(old(seats), docs) == i + InsertedPrefix(seats, docs[i..])
        invariant events == old(events) && bookings == old(bookings)
      {
        assert docs[i..][1..] == docs[i + 1..];
        assert docs[..i + 1] == docs[..i] + [docs[i]];
        seats := seats + [docs[i]];
        i := i + 1;
      }
      outcome := if i == |docs| then AllInserted else DuplicateKey;
    }

    /** `POST /events/:id/book` as written: the booking it builds carries no `totalAmount`. */
    method BookTickets(req: Bookings.TicketRequest, now: int) returns (r: Result<BookingId, Error>)
      modifies this
      ensures (r, Snapshot()) == Bookings.BookTickets(old(Snapshot()), req, now)
    {
      r := PlaceTickets(req, now, None);
    }

    /** `POST /events/:id/book` with the corrected booking, whose total is zero. */
    method BookTicketsCorrected(req: Bookings.TicketRequest, now: int) returns (r: Result<BookingId, Error>)
      modifies this
      ensures (r, Snapshot()) == Bookings.BookTicketsCorrected(old(Snapshot()), req, now)
    {
      r := PlaceTickets(req, now, Some(0));
    }

    /** The ticket booking handler for a given stored `totalAmount`: the guards, then
        `booking.save()`, then the decremented `event.save()`. */
    method PlaceTickets(req: Bookings.TicketRequest, now: int, totalAmount: Option<int>) returns (r: Result<BookingId, Error>)
      modifies this
      ensures (r, Snapshot()) == Bookings.PlaceTickets(old(Snapshot()), req, now, totalAmount)
    {
      if !Bookings.RequestValid(req) {
        return Failure(InvalidInput);
      }
      if req.event >= |events| {
        return Failure(NotFound);
      }
      var event := events[req.event];
      if event.date < now {
        return Failure(PastEvent);
      }
      if event.availableSeats < req.tickets {
        return Failure(NotEnoughSeats(event.availableSeats));
      }
      if HasConfirmed(bookings, req.user, req.event) {
        return Failure(AlreadyBooked);
      }
      var id := |bookings|;
      var booking := Bookings.NewTicketBooking(req, now, totalAmount);
      event := event.(availableSeats := event.availableSeats - req.tickets);
      var ok := SaveNewBooking(booking);
      if !ok {
        return Failure(ServerError);
      }
      ok := SaveEvent(req.event, event, now);
      if !ok {
        return Failure(ServerError);
      }
      r := Success(id);
    }

    /** `POST /bookings/:id/cancel`: the guards, then the restored `event.save()`, then the
        cancelled `booking.save()`. */
    method CancelBooking(user: UserId, id: BookingId, now: int) returns (r: Result<(), Error>)
      modifies this
      ensures (r, Snapshot()) == Bookings.CancelBooking(old(Snapshot()), user, id, now)
    {
      if id >= |bookings| || bookings[id].user != user {
        return Failure(NotFound);
      }
      var booking := bookings[id];
      if booking.status == Cancelled {
        return Failure(AlreadyCancelled);
      }
      if booking.event >= |events| {
        return Failure(ServerError);
      }
      var event := events[booking.event];
      if event.date < now {
        return Failure(PastEvent);
      }
      event := event.(availableSeats := event.availableSeats + booking.tickets);
      var ok := SaveEvent(booking.event, event, now);
      if !ok {
        return Failure(ServerError);
      }
      booking := booking.(status := Cancelled);
      ok := SaveBooking(id, booking);
      if !ok {
        return Failure(ServerError);
      }
      r := Success(());
    }

    /** `POST /events/:id/seats/book`: the guards, then `Seat.updateMany`, then
        `booking.save()`, then the decremented `event.save()`. */
    method BookSeats(req: Seats.SeatRequest, now: int) returns (r: Result<Seats.Receipt, Error>)
      modifies this
      ensures (r, Snapshot()) == Seats.BookSeats(old(Snapshot()), req, now)
    {
      if !req.detailsValid || |req.seatIds| == 0 {
        return Failure(InvalidInput);
      }
      if req.event >= |events| {
        return Failure(NotFound);
      }
      var event := events[req.event];
      if event.date < now {
        return Failure(PastEvent);
      }
      var found := Seats.FoundSeats(Snapshot(), req.event, req.seatIds);
      if |found| != |req.seatIds| {
        return Failure(SeatsUnavailable);
      }
      var total := Seats.TotalPrice(seats, found);
      if HasConfirmed(bookings, req.user, req.event) {
        return Failure(AlreadyBooked);
      }
      var id := |bookings|;
      var booking := Seats.NewSeatBooking(req, now, |found|, total);
      MarkBooked(req.seatIds);
      event := event.(availableSeats := event.availableSeats - |found|);
      var ok := SaveNewBooking(booking);
      if !ok {
        return Failure(ServerError);
      }
      ok := SaveEvent(req.event, event, now);
      if !ok {
        return Failure(ServerError);
      }
      r := Success(Seats.Receipt(id, found, total));
    }

    /** `POST /events/:id/seats`: the guards, the documents, `Seat.insertMany`, then the
        flagged `event.save()`. */
    method CreateSeats(req: Seats.BulkSeatsRequest, now: int) returns (r: Result<nat, Error>)
      modifies this
      ensures (r, Snapshot()) == Seats.CreateSeats(old(Snapshot()), req, now)
    {
      if !req.shapeValid {
        return Failure(InvalidInput);
      }
      if req.event >= |events| {
        return Failure(NotFound);
      }
      if !Seats.AllConvert(req.seats, req.event) {
        return Failure(ServerError);
      }
      var docs := Seats.SeatDocs(req.seats, req.event);
      var event := events[req.event];
      var outcome := InsertSeats(docs);
      if outcome == ValidationFailed {
        return Failure(ServerError);
      }
      if outcome == DuplicateKey {
        return Failure(DuplicateSeatNumbers);
      }
      event := event.(hasSeatSelection := true);
      var ok := SaveEvent(req.event, event, now);
      if !ok {
        return Failure(ServerError);
      }
      r := Success(|docs|);
    }

    /** `POST /events`: build the event with a full counter and save it. */
    method CreateEvent(req: Events.EventRequest, now: int) returns (r: Result<Events.EventSummary, Error>)
      modifies this
      ensures (r, Snapshot()) == Events.CreateEvent(old(Snapshot()), req, now)
    {
      var e := Events.NewEvent(req);
      if e.None? {
        return Failure(ServerError);
      }
      var id := |events|;
      var ok := SaveNewEvent(e.value, now);
      if !ok {
        return Failure(ServerError);
      }
      r := Success(Events.SummaryOf(id, e.value));
    }
  
    /** The grid script: find the event, build the grid, `Seat.insertMany`, then the event
        with its layout and seat selection. */
    method RunCreateSeats(event: EventId, base: int, now: int) returns (outcome: CreateSeatsScript.ScriptOutcome)
      modifies this
      ensures (outcome, Snapshot()) == CreateSeatsScript.RunScript(old(Snapshot()), event, base, now)
    {
      if event >= |events| {
        return CreateSeatsScript.EventMissing;
      }
      var grid := CreateSeatsScript.BuildGrid(event, base);
      var e := events[event];
      var inserted := InsertSeats(grid);
      if inserted != AllInserted {
        return CreateSeatsScript.Failed;
      }
      e := e.(hasSeatSelection := true, seatLayout := Some(CreateSeatsScript.Layout()));
      var ok := SaveEvent(event, e, now);
      if !ok {
        return CreateSeatsScript.Failed;
      }
      outcome := CreateSeatsScript.Created(|grid|);
    }

    /** The seed script: save the sample event, build and insert its seats, then save the
        regular event. */
    method RunSeed(now: int) returns (outcome: SeedSeatSystem.SeedOutcome)
      modifies this
      ensures (outcome, Snapshot()) == SeedSeatSystem.RunSeed(old(Snapshot()), now)
    {
      var id := |events|;
      var ok := SaveNewEvent(SeedSeatSystem.SampleEvent(), now);
      if !ok {
        return SeedSeatSystem.Failed;
      }
      var layout := SeedSeatSystem.SampleLayout();
      var grid := SeedSeatSystem.BuildSeedSeats(id, layout.sections, SeedSeatSystem.SamplePrice);
      var inserted := InsertSeats(grid);
      if inserted != AllInserted {
        return SeedSeatSystem.Failed;
      }
      ok := SaveNewEvent(SeedSeatSystem.RegularEvent(), now);
      if !ok {
        return SeedSeatSystem.Failed;
      }
      outcome := SeedSeatSystem.Seeded;
    }
  }
}
