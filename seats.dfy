/** The seat routes: booking specific seats, listing an event's seats grouped by section and
    row, and creating seats in bulk. */
module Seats {
  import opened Wrappers
  import opened Strings
  import opened EventModel
  import opened SeatModel
  import opened BookingModel
  import opened Store
  import Sorting
  import Query
  import Bookings

  /** The body of `POST /events/:id/seats/book`; `detailsValid` stands for the id, name and
      e-mail validators other than "at least one seat". */
  datatype SeatRequest = SeatRequest(
    user: UserId,
    event: EventId,
    seatIds: seq<SeatId>,
    userName: string,
    userEmail: string,
    detailsValid: bool)

  /** The filter `{_id: {$in: ids}, event, status: 'available'}`. */
  function Bookable(event: EventId, ids: seq<SeatId>): (SeatId, Seat) -> bool {
    (id: SeatId, s: Seat) => id in ids && s.event == event && s.status == Available
  }

  /** The seats that filter finds, in natural order. */
  function FoundSeats(db: Db, event: EventId, ids: seq<SeatId>): seq<SeatId> {
    Query.Matching(db.seats, Bookable(event, ids))
  }

  /** `seats.reduce((sum, seat) => sum + seat.price, 0)`. */
  function TotalPrice(seats: seq<Seat>, ids: seq<SeatId>): (total: int)
    requires forall i :: 0 <= i < |ids| ==> ids[i] < |seats|
    ensures (forall i :: 0 <= i < |ids| ==> seats[ids[i]].price >= 0) ==> total >= 0
  {
    if ids == [] then 0 else TotalPrice(seats, ids[..|ids| - 1]) + seats[ids[|ids| - 1]].price
  }

  datatype Receipt = Receipt(booking: BookingId, seats: seq<SeatId>, totalAmount: int)

  function NewSeatBooking(req: SeatRequest, now: int, count: nat, total: int): Booking {
    Booking(req.user, req.event, req.userName, req.userEmail, count, req.seatIds, Some(total), Confirmed, now)
  }

  /** The seat booking handler as written. After the guards it marks the seats booked, then
      saves the booking, then the decremented event, each step persisting on its own; the
      confirmation e-mail that follows cannot fail the request and changes nothing here. */
  function BookSeats(db: Db, req: SeatRequest, now: int): (Result<Receipt, Error>, Db) {
    if !req.detailsValid || |req.seatIds| == 0 then (Failure(InvalidInput), db)
    else if req.event >= |db.events| then (Failure(NotFound), db)
    else
      var event := db.events[req.event];
      if event.date < now then (Failure(PastEvent), db)
      else
        var found := FoundSeats(db, req.event, req.seatIds);
        if |found| != |req.seatIds| then (Failure(SeatsUnavailable), db)
        else
          var total := TotalPrice(db.seats, found);
          if HasConfirmed(db.bookings, req.user, req.event) then (Failure(AlreadyBooked), db)
          else CommitSeatBooking(db, req, now, found, total)
  }

  /** The writes after the guards: the seats are marked booked, then the booking is saved,
      then the decremented event, each step persisting on its own. */
  function CommitSeatBooking(db: Db, req: SeatRequest, now: int, found: seq<SeatId>, total: int): (Result<Receipt, Error>, Db)
    requires req.event < |db.events|
  {
    var event := db.events[req.event];
    var booking := NewSeatBooking(req, now, |found|, total);
    var db1 := db.(seats := MarkBooked(db.seats, req.seatIds));
    var updated := event.(availableSeats := event.availableSeats - |found|);
    match SaveNewBooking(db1, booking)
    case None => (Failure(ServerError), db1)
    case Some(db2) =>
      match SaveEvent(db2, req.event, updated, now)
      case None => (Failure(ServerError), db2)
      case Some(db3) => (Success(Receipt(|db.bookings|, found, total)), db3)
  }

  /** The seat booking handler with the evidently intended all-or-nothing commit: the booking
      and the updated event are validated before anything is written. */
  function BookSeatsAtomic(db: Db, req: SeatRequest, now: int): (Result<Receipt, Error>, Db) {
    if !req.detailsValid || |req.seatIds| == 0 then (Failure(InvalidInput), db)
    else if req.event >= |db.events| then (Failure(NotFound), db)
    else
      var event := db.events[req.event];
      if event.date < now then (Failure(PastEvent), db)
      else
        var found := FoundSeats(db, req.event, req.seatIds);
        if |found| != |req.seatIds| then (Failure(SeatsUnavailable), db)
        else
          var total := TotalPrice(db.seats, found);
          if HasConfirmed(db.bookings, req.user, req.event) then (Failure(AlreadyBooked), db)
          else
            CommitAtomic(db, req, now, found, total)
  }

  /** The all-or-nothing writes: nothing is stored unless the booking and the event both pass. */
  function CommitAtomic(db: Db, req: SeatRequest, now: int, found: seq<SeatId>, total: int): (Result<Receipt, Error>, Db)
    requires req.event < |db.events|
  {
    var event := db.events[req.event];
    var booking := NewSeatBooking(req, now, |found|, total);
    var updated := event.(availableSeats := event.availableSeats - |found|);
    if SaveNewBooking(db, booking).None? || !Savable(updated, now) then (Failure(ServerError), db)
    else
      var db' := Db(db.events[req.event := updated], MarkBooked(db.seats, req.seatIds), db.bookings + [booking]);
      (Success(Receipt(|db.bookings|, found, total)), db')
  }

  // ---- the count check ----

  function Elements<T>(s: seq<T>): set<T> {
    set x | x in s
  }

  lemma {:induction false} ElementsCardinality<T>(s: seq<T>)
    ensures |Elements(s)| <= |s|
    ensures |Elements(s)| == |s| <==> Sorting.Distinct(s)
  {
    if s != [] {
      var n := |s| - 1;
      var p := s[..n];
      ElementsCardinality(p);
      assert s == p + [s[n]];
      assert Elements(s) == Elements(p) + {s[n]};
      if s[n] in p {
        assert Elements(s) == Elements(p);
        var k :| 0 <= k < n && p[k] == s[n];
        assert s[k] == s[n];
      } else {
        assert |Elements(s)| == |Elements(p)| + 1;
        if Sorting.Distinct(p) {
          forall i, j | 0 <= i < j < |s| ensures s[i] != s[j] {
            if j < n { assert s[i] == p[i] && s[j] == p[j]; } else { assert s[i] in p; }
          }
        }
        if Sorting.Distinct(s) {
          forall i, j | 0 <= i < j < |p| ensures p[i] != p[j] { assert p[i] == s[i] && p[j] == s[j]; }
        }
      }
    }
  }

  lemma SubsetCardinality<T>(a: set<T>, b: set<T>)
    requires a <= b
    ensures |a| <= |b|
    ensures |a| == |b| ==> a == b
  {
    assert b == a + (b - a);
    assert |b| == |a| + |b - a|;
  }

  /** The handler goes on exactly when every requested id names a distinct seat of this event
      that is still available: an unknown, foreign, taken or repeated id makes the count of
      found seats differ from the count of requested ids. */
  lemma FoundAllIff(db: Db, event: EventId, ids: seq<SeatId>)
    ensures var found := FoundSeats(db, event, ids);
      |found| == |ids| <==>
        && Sorting.Distinct(ids)
        && forall i :: 0 <= i < |ids| ==> ids[i] < |db.seats| && db.seats[ids[i]].event == event && db.seats[ids[i]].status == Available
    ensures var found := FoundSeats(db, event, ids);
      |found| == |ids| ==> Elements(found) == Elements(ids)
  {
    var found := FoundSeats(db, event, ids);
    var keep := Bookable(event, ids);
    assert Sorting.Distinct(found);
    ElementsCardinality(found);
    ElementsCardinality(ids);
    assert Elements(found) <= Elements(ids);
    SubsetCardinality(Elements(found), Elements(ids));
    var good := forall i :: 0 <= i < |ids| ==> ids[i] < |db.seats| && db.seats[ids[i]].event == event && db.seats[ids[i]].status == Available;
    if good {
      forall x | x in Elements(ids) ensures x in Elements(found) {
        var i :| 0 <= i < |ids| && ids[i] == x;
        assert keep(x, db.seats[x]);
      }
      assert Elements(found) == Elements(ids);
    }
    assert |Elements(found)| == |found|;
    if |found| == |ids| {
      assert |Elements(ids)| == |ids|;
      assert Elements(found) == Elements(ids);
      forall i | 0 <= i < |ids|
        ensures ids[i] < |db.seats| && db.seats[ids[i]].event == event && db.seats[ids[i]].status == Available
      {
        assert ids[i] in Elements(found);
      }
    }
  }

  /** Every requested id names a distinct available seat of the event. */
  predicate AllBookable(db: Db, event: EventId, ids: seq<SeatId>) {
    && Sorting.Distinct(ids)
    && forall i :: 0 <= i < |ids| ==> ids[i] < |db.seats| && db.seats[ids[i]].event == event && db.seats[ids[i]].status == Available
  }

  /** The guards before any write, in the source's order; each rejection leaves the store as
      it was. In particular an existing Confirmed booking is reported before any seat changes. */
  lemma BookSeatsGuards(db: Db, req: SeatRequest, now: int)
    ensures var (r, db') := BookSeats(db, req, now);
      && (r.Failure? && r.error != ServerError ==> db' == db)
      && (!req.detailsValid || |req.seatIds| == 0 ==> r == Failure(InvalidInput))
      && (req.detailsValid && |req.seatIds| > 0 ==>
            && (req.event >= |db.events| ==> r == Failure(NotFound))
            && (req.event < |db.events| ==>
                  var e := db.events[req.event];
                  && (e.date < now ==> r == Failure(PastEvent))
                  && (!(e.date < now) && !AllBookable(db, req.event, req.seatIds) ==> r == Failure(SeatsUnavailable))
                  && ((!(e.date < now) && AllBookable(db, req.event, req.seatIds) && HasConfirmed(db.bookings, req.user, req.event))
                        ==> r == Failure(AlreadyBooked))))
  {
    FoundAllIff(db, req.event, req.seatIds);
  }

  /** A successful seat booking books exactly the requested seats, all of which were available
      seats of the event, leaves every other seat alone, takes their number off the event's
      counter, which stays non-negative, and records one Confirmed booking with
      `tickets = seats.length`, the seat list and a total that is the sum of the seats' prices. */
  lemma BookSeatsSuccess(db: Db, req: SeatRequest, now: int)
    requires BookSeats(db, req, now).0.Success?
    ensures var (r, db') := BookSeats(db, req, now);
      && req.event < |db.events|
      && !(db.events[req.event].date < now)
      && AllBookable(db, req.event, req.seatIds)
      && !HasConfirmed(db.bookings, req.user, req.event)
      && |db'.seats| == |db.seats|
      && (forall i :: 0 <= i < |db.seats| && i in req.seatIds ==> db'.seats[i] == db.seats[i].(status := Booked))
      && (forall i :: 0 <= i < |db.seats| && i !in req.seatIds ==> db'.seats[i] == db.seats[i])
      && db'.events == db.events[req.event := db.events[req.event].(availableSeats := db.events[req.event].availableSeats - |req.seatIds|)]
      && db'.events[req.event].availableSeats >= 0
      && Elements(r.value.seats) == Elements(req.seatIds)
      && r.value.totalAmount == TotalPrice(db.seats, r.value.seats)
      && r.value.booking == |db.bookings|
      && db'.bookings == db.bookings + [NewSeatBooking(req, now, |req.seatIds|, r.value.totalAmount)]
  {
    BookSeatsPassedGuards(db, req, now);
    BookSeatsMarksSeats(db, req, now);
    BookSeatsLowersCounter(db, req, now);
    BookSeatsRecords(db, req, now);
  }

  lemma BookSeatsMarksSeats(db: Db, req: SeatRequest, now: int)
    requires BookSeats(db, req, now).0.Success?
    ensures var db' := BookSeats(db, req, now).1;
      && |db'.seats| == |db.seats|
      && (forall i :: 0 <= i < |db.seats| && i in req.seatIds ==> db'.seats[i] == db.seats[i].(status := Booked))
      && (forall i :: 0 <= i < |db.seats| && i !in req.seatIds ==> db'.seats[i] == db.seats[i])
  {
    var found := FoundSeats(db, req.event, req.seatIds);
    BookSeatsPassedGuards(db, req, now);
    CommitSuccess(db, req, now, found, TotalPrice(db.seats, found));
  }

  lemma BookSeatsLowersCounter(db: Db, req: SeatRequest, now: int)
    requires BookSeats(db, req, now).0.Success?
    ensures req.event < |db.events|
    ensures var db' := BookSeats(db, req, now).1;
      && db'.events == db.events[req.event := db.events[req.event].(availableSeats := db.events[req.event].availableSeats - |req.seatIds|)]
      && db'.events[req.event].availableSeats >= 0
  {
    BookSeatsPassedGuards(db, req, now);
    var found := FoundSeats(db, req.event, req.seatIds);
    var total := TotalPrice(db.seats, found);
    CommitLowersCounter(db, req, now, found, total);
  }

  /** A successful commit for all the requested seats takes their number off the counter. */
  lemma CommitLowersCounter(db: Db, req: SeatRequest, now: int, found: seq<SeatId>, total: int)
    requires req.event < |db.events| && CommitSeatBooking(db, req, now, found, total).0.Success?
    requires |found| == |req.seatIds|
    ensures CommitSeatBooking(db, req, now, found, total).1.events
      == db.events[req.event := db.events[req.event].(availableSeats := db.events[req.event].availableSeats - |req.seatIds|)]
    ensures db.events[req.event].availableSeats - |req.seatIds| >= 0
  {
    CommitRecords(db, req, now, found, total);
  }

  lemma BookSeatsRecords(db: Db, req: SeatRequest, now: int)
    requires BookSeats(db, req, now).0.Success?
    ensures req.event < |db.events|
    ensures var (r, db') := BookSeats(db, req, now);
      && Elements(r.value.seats) == Elements(req.seatIds)
      && r.value.totalAmount == TotalPrice(db.seats, r.value.seats)
      && r.value.booking == |db.bookings|
      && db'.bookings == db.bookings + [NewSeatBooking(req, now, |req.seatIds|, r.value.totalAmount)]
  {
    BookSeatsPassedGuards(db, req, now);
    var found := FoundSeats(db, req.event, req.seatIds);
    CommitRecords(db, req, now, found, TotalPrice(db.seats, found));
  }

  /** What a successful commit records: the decremented counter, the receipt and the booking. */
  lemma CommitRecords(db: Db, req: SeatRequest, now: int, found: seq<SeatId>, total: int)
    requires req.event < |db.events| && CommitSeatBooking(db, req, now, found, total).0.Success?
    ensures var (r, db') := CommitSeatBooking(db, req, now, found, total);
      && db'.events == db.events[req.event := db.events[req.event].(availableSeats := db.events[req.event].availableSeats - |found|)]
      && db'.events[req.event].availableSeats >= 0
      && r.value == Receipt(|db.bookings|, found, total)
      && db'.bookings == db.bookings + [NewSeatBooking(req, now, |found|, total)]
  {
    CommitSuccess(db, req, now, found, total);
  }

  /** A successful seat booking got past every guard to the commit. */
  lemma BookSeatsPassedGuards(db: Db, req: SeatRequest, now: int)
    requires BookSeats(db, req, now).0.Success?
    ensures req.event < |db.events| && !(db.events[req.event].date < now)
    ensures AllBookable(db, req.event, req.seatIds) && !HasConfirmed(db.bookings, req.user, req.event)
    ensures |FoundSeats(db, req.event, req.seatIds)| == |req.seatIds|
    ensures Elements(FoundSeats(db, req.event, req.seatIds)) == Elements(req.seatIds)
    ensures BookSeats(db, req, now) == CommitSeatBooking(db, req, now, FoundSeats(db, req.event, req.seatIds),
                                                         TotalPrice(db.seats, FoundSeats(db, req.event, req.seatIds)))
  {
    FoundAllIff(db, req.event, req.seatIds);
  }

  /** A commit that succeeds has written all three steps. */
  lemma CommitSuccess(db: Db, req: SeatRequest, now: int, found: seq<SeatId>, total: int)
    requires req.event < |db.events| && CommitSeatBooking(db, req, now, found, total).0.Success?
    ensures var event := db.events[req.event];
      var updated := event.(availableSeats := event.availableSeats - |found|);
      && Savable(updated, now)
      && CommitSeatBooking(db, req, now, found, total) ==
           (Success(Receipt(|db.bookings|, found, total)),
            Db(db.events[req.event := updated], MarkBooked(db.seats, req.seatIds),
               db.bookings + [NewSeatBooking(req, now, |found|, total)]))
  {
  }

  /** As written, a request for more than ten available seats marks them all booked and then
      fails: the booking breaks the ten-ticket limit, so no booking is stored and the counter
      does not move, yet the seats stay booked. */
  lemma MoreThanTenSeatsStranded(db: Db, req: SeatRequest, now: int)
    requires req.detailsValid && req.event < |db.events| && !(db.events[req.event].date < now)
    requires AllBookable(db, req.event, req.seatIds) && !HasConfirmed(db.bookings, req.user, req.event)
    requires |req.seatIds| > MaxTickets
    ensures var (r, db') := BookSeats(db, req, now);
      && r == Failure(ServerError)
      && db'.bookings == db.bookings
      && db'.events == db.events
      && forall i :: 0 <= i < |req.seatIds| ==>
           db.seats[req.seatIds[i]].status == Available && db'.seats[req.seatIds[i]].status == Booked
  {
    FoundAllIff(db, req.event, req.seatIds);
  }

  /** As written, the handler never compares the counter with the number of seats. When the
      event's counter is below that number (the bulk route caps nothing, so an event can hold
      more seats than `total_seats`), the seats are marked booked and the Confirmed booking is
      stored, and only then does the decremented event fail its `min: 0` validator. The reply is
      a server error, yet the booking stays, the seats stay booked, the counter does not move,
      and the stored booking makes every later request of this user for the event AlreadyBooked. */
  lemma CounterShortStranded(db: Db, req: SeatRequest, now: int)
    requires Consistent(db)
    requires req.detailsValid && req.event < |db.events| && !(db.events[req.event].date < now)
    requires AllBookable(db, req.event, req.seatIds) && !HasConfirmed(db.bookings, req.user, req.event)
    requires 1 <= |req.seatIds| <= MaxTickets
    requires db.events[req.event].availableSeats < |req.seatIds|
    ensures var (r, db') := BookSeats(db, req, now);
      && r == Failure(ServerError)
      && db'.events == db.events
      && |db'.bookings| == |db.bookings| + 1 && db'.bookings[..|db.bookings|] == db.bookings
      && ConfirmedFor(db'.bookings[|db.bookings|], req.user, req.event)
      && HasConfirmed(db'.bookings, req.user, req.event)
      && forall i :: 0 <= i < |req.seatIds| ==>
           db.seats[req.seatIds[i]].status == Available && db'.seats[req.seatIds[i]].status == Booked
  {
    CounterShortOutcome(db, req, now);
    var db' := BookSeats(db, req, now).1;
    assert ConfirmedFor(db'.bookings[|db.bookings|], req.user, req.event);
  }

  lemma CounterShortOutcome(db: Db, req: SeatRequest, now: int)
    requires Consistent(db)
    requires req.detailsValid && req.event < |db.events| && !(db.events[req.event].date < now)
    requires AllBookable(db, req.event, req.seatIds) && !HasConfirmed(db.bookings, req.user, req.event)
    requires 1 <= |req.seatIds| <= MaxTickets
    requires db.events[req.event].availableSeats < |req.seatIds|
    ensures var found := FoundSeats(db, req.event, req.seatIds);
      BookSeats(db, req, now) ==
        (Failure(ServerError), Db(db.events, MarkBooked(db.seats, req.seatIds),
          db.bookings + [NewSeatBooking(req, now, |found|, TotalPrice(db.seats, found))]))
  {
    var found := FoundSeats(db, req.event, req.seatIds);
    FoundAllIff(db, req.event, req.seatIds);
    forall i | 0 <= i < |found| ensures db.seats[found[i]].price >= 0 {
      assert db.seats[found[i]] in db.seats;
    }
    var total := TotalPrice(db.seats, found);
    assert BookSeats(db, req, now) == CommitSeatBooking(db, req, now, found, total);
    CommitCounterShort(db, req, now, found, total);
  }

  /** The commit when the booking passes its schema and the index but the counter is short:
      seats and booking are written, the event is not. */
  lemma CommitCounterShort(db: Db, req: SeatRequest, now: int, found: seq<SeatId>, total: int)
    requires req.event < |db.events| && !HasConfirmed(db.bookings, req.user, req.event)
    requires MinTickets <= |found| <= MaxTickets && total >= 0
    requires db.events[req.event].availableSeats < |found|
    ensures CommitSeatBooking(db, req, now, found, total) ==
      (Failure(ServerError), Db(db.events, MarkBooked(db.seats, req.seatIds), db.bookings + [NewSeatBooking(req, now, |found|, total)]))
  {
    var booking := NewSeatBooking(req, now, |found|, total);
    assert !ClashesWithIndex(db.bookings, -1, booking);
  }

  /** With the all-or-nothing commit every failure leaves the store exactly as it was, and every
      success is the same reply and store as the handler as written. */
  lemma BookSeatsAtomicSpec(db: Db, req: SeatRequest, now: int)
    ensures BookSeatsAtomic(db, req, now).0.Failure? ==> BookSeatsAtomic(db, req, now).1 == db
    ensures BookSeatsAtomic(db, req, now).0.Success? <==> BookSeats(db, req, now).0.Success?
    ensures BookSeats(db, req, now).0.Success? ==> BookSeatsAtomic(db, req, now) == BookSeats(db, req, now)
    ensures |req.seatIds| > MaxTickets ==> BookSeatsAtomic(db, req, now).0.Failure?
  {
    if PassesGuards(db, req, now) {
      var found := FoundSeats(db, req.event, req.seatIds);
      BothCommit(db, req, now);
      CommitAtomicSpec(db, req, now, found, TotalPrice(db.seats, found));
    } else {
      BothReject(db, req, now);
    }
  }

  /** With the all-or-nothing commit a counter short of the request is refused, and so (by
      BookSeatsAtomicSpec) writes nothing. */
  lemma BookSeatsAtomicCounterShort(db: Db, req: SeatRequest, now: int)
    requires req.event < |db.events| && db.events[req.event].availableSeats < |req.seatIds|
    ensures BookSeatsAtomic(db, req, now).0.Failure? && BookSeatsAtomic(db, req, now).1 == db
  {
    if PassesGuards(db, req, now) {
      var found := FoundSeats(db, req.event, req.seatIds);
      BothCommit(db, req, now);
      CommitAtomicCounterShort(db, req, now, found, TotalPrice(db.seats, found));
    } else {
      BothReject(db, req, now);
    }
  }

  /** Every check the seat handlers make before writing. */
  predicate PassesGuards(db: Db, req: SeatRequest, now: int) {
    && req.detailsValid && |req.seatIds| > 0 && req.event < |db.events|
    && !(db.events[req.event].date < now)
    && |FoundSeats(db, req.event, req.seatIds)| == |req.seatIds|
    && !HasConfirmed(db.bookings, req.user, req.event)
  }

  /** Past the guards both handlers hand over to their commit. */
  lemma BothCommit(db: Db, req: SeatRequest, now: int)
    requires PassesGuards(db, req, now)
    ensures var found := FoundSeats(db, req.event, req.seatIds);
      && BookSeats(db, req, now) == CommitSeatBooking(db, req, now, found, TotalPrice(db.seats, found))
      && BookSeatsAtomic(db, req, now) == CommitAtomic(db, req, now, found, TotalPrice(db.seats, found))
  {
  }

  /** A rejection by a guard is the same for both handlers and writes nothing. */
  lemma BothReject(db: Db, req: SeatRequest, now: int)
    requires !PassesGuards(db, req, now)
    ensures BookSeatsAtomic(db, req, now) == BookSeats(db, req, now)
    ensures BookSeats(db, req, now).0.Failure? && BookSeats(db, req, now).1 == db
  {
  }

  lemma CommitAtomicCounterShort(db: Db, req: SeatRequest, now: int, found: seq<SeatId>, total: int)
    requires req.event < |db.events| && db.events[req.event].availableSeats < |found|
    ensures CommitAtomic(db, req, now, found, total) == (Failure(ServerError), db)
  {
  }

  /** The two commits agree on success, and the atomic one writes nothing when it fails. */
  lemma CommitAtomicSpec(db: Db, req: SeatRequest, now: int, found: seq<SeatId>, total: int)
    requires req.event < |db.events|
    ensures CommitAtomic(db, req, now, found, total).0.Failure? ==> CommitAtomic(db, req, now, found, total).1 == db
    ensures CommitAtomic(db, req, now, found, total).0.Success? <==> CommitSeatBooking(db, req, now, found, total).0.Success?
    ensures CommitSeatBooking(db, req, now, found, total).0.Success? ==>
      CommitAtomic(db, req, now, found, total) == CommitSeatBooking(db, req, now, found, total)
    ensures |found| > MaxTickets ==> CommitAtomic(db, req, now, found, total).0.Failure?
  {
    var booking := NewSeatBooking(req, now, |found|, total);
    var db1 := db.(seats := MarkBooked(db.seats, req.seatIds));
    assert SaveNewBooking(db1, booking).Some? <==> SaveNewBooking(db, booking).Some?;
  }

  lemma BookSeatsConsistent(db: Db, req: SeatRequest, now: int)
    requires Consistent(db)
    ensures Consistent(BookSeats(db, req, now).1)
  {
    if req.detailsValid && |req.seatIds| > 0 && req.event < |db.events| {
      var found := FoundSeats(db, req.event, req.seatIds);
      CommitConsistent(db, req, now, found, TotalPrice(db.seats, found));
    }
  }

  lemma CommitConsistent(db: Db, req: SeatRequest, now: int, found: seq<SeatId>, total: int)
    requires Consistent(db) && req.event < |db.events|
    ensures Consistent(CommitSeatBooking(db, req, now, found, total).1)
  {
    var event := db.events[req.event];
    var booking := NewSeatBooking(req, now, |found|, total);
    var db1 := db.(seats := MarkBooked(db.seats, req.seatIds));
    MarkBookedConsistent(db, req.seatIds);
    if SaveNewBooking(db1, booking).Some? {
      SaveNewBookingConsistent(db1, booking);
      var db2 := SaveNewBooking(db1, booking).value;
      var updated := event.(availableSeats := event.availableSeats - |found|);
      if SaveEvent(db2, req.event, updated, now).Some? {
        SaveEventConsistent(db2, req.event, updated, now);
      }
    }
  }

  /** Cancelling the booking a seat booking stored gives the event its counter back and
      leaves every seat as it is. */
  lemma CancelSeatBooking(db: Db, db1: Db, req: SeatRequest, now: int, total: int)
    requires Consistent(db1) && req.event < |db.events| && !(db.events[req.event].date < now)
    requires db1.bookings == db.bookings + [NewSeatBooking(req, now, |req.seatIds|, total)]
    requires db1.events == db.events[req.event := db.events[req.event].(availableSeats := db.events[req.event].availableSeats - |req.seatIds|)]
    ensures Bookings.CancelBooking(db1, req.user, |db.bookings|, now).0.Success?
    ensures Bookings.CancelBooking(db1, req.user, |db.bookings|, now).1.events == db.events
    ensures Bookings.CancelBooking(db1, req.user, |db.bookings|, now).1.seats == db1.seats
  {
    var id := |db.bookings|;
    Bookings.CancelBookingSpec(db1, req.user, id, now);
    var db2 := Bookings.CancelBooking(db1, req.user, id, now).1;
    assert db2.events[req.event] == db.events[req.event];
  }

  /** Cancelling a seat booking (through the generic cancel route) gives the event its counter
      back but leaves every seat as it was, so the cancelled seats stay booked. */
  lemma BookSeatsThenCancel(db: Db, req: SeatRequest, now: int)
    requires Consistent(db)
    requires BookSeats(db, req, now).0.Success?
    ensures var (r, db1) := BookSeats(db, req, now);
      var (c, db2) := Bookings.CancelBooking(db1, req.user, r.value.booking, now);
      && c.Success?
      && db2.events == db.events
      && db2.seats == db1.seats
      && forall i :: 0 <= i < |db1.seats| && i in req.seatIds ==> db1.seats[i].status == Booked
  {
    BookSeatsSuccess(db, req, now);
    BookSeatsConsistent(db, req, now);
    var (r, db1) := BookSeats(db, req, now);
    CancelSeatBooking(db, db1, req, now, r.value.totalAmount);
  }

  /** The body of `POST /events/:id/seats`; `shapeValid` stands for the route's validators
      (an array whose items have string seatNumber and row and a numeric price). */
  datatype BulkSeatsRequest = BulkSeatsRequest(event: EventId, seats: seq<SeatInput>, shapeValid: bool)

  predicate AllConvert(inputs: seq<SeatInput>, event: EventId) {
    forall k :: 0 <= k < |inputs| ==> FromInput(inputs[k], event).Some?
  }

  /** `seats.map(seat => ({...seat, event}))`, each document built by the schema. */
  function SeatDocs(inputs: seq<SeatInput>, event: EventId): (docs: seq<Seat>)
    requires AllConvert(inputs, event)
    ensures |docs| == |inputs|
    ensures forall k :: 0 <= k < |docs| ==> docs[k] == FromInput(inputs[k], event).value
  {
    seq(|inputs|, k requires 0 <= k < |inputs| && AllConvert(inputs, event) => FromInput(inputs[k], event).value)
  }

  /** The bulk-create handler. A document the schema refuses fails the whole insert before
      anything is stored; a duplicate (event, seatNumber) stops the ordered insert, keeps
      the seats stored before it and answers "Duplicate seat numbers"; after a complete insert
      the event is flagged as having seat selection and saved, and a failing save still keeps
      the seats. The reply carries the number of seats created. */
  function CreateSeats(db: Db, req: BulkSeatsRequest, now: int): (Result<nat, Error>, Db) {
    if !req.shapeValid then (Failure(InvalidInput), db)
    else if req.event >= |db.events| then (Failure(NotFound), db)
    else if !AllConvert(req.seats, req.event) then (Failure(ServerError), db)
    else
      InsertAndFlag(db, req.event, SeatDocs(req.seats, req.event), now)
  }

  /** `Seat.insertMany(seats)` and then the event's `has_seat_selection = true` save. */
  function InsertAndFlag(db: Db, event: EventId, docs: seq<Seat>, now: int): (Result<nat, Error>, Db)
    requires event < |db.events|
  {
    var (outcome, db1) := InsertSeats(db, docs);
    if outcome == ValidationFailed then (Failure(ServerError), db1)
    else if outcome == DuplicateKey then (Failure(DuplicateSeatNumbers), db1)
    else
      match SaveEvent(db1, event, db.events[event].(hasSeatSelection := true), now)
      case None => (Failure(ServerError), db1)
      case Some(db2) => (Success(|docs|), db2)
  }

  /** Every outcome of a bulk create: rejections before the insert change nothing; otherwise the
      seats stored are a prefix of the converted documents, all tagged with the event, and
      nothing but the seats and that event's flag changes. Success stores all of them and sets
      the flag; a duplicate key stores the documents before it, leaves the event as it was, and
      is the only outcome reported as duplicate seat numbers. */
  lemma CreateSeatsSpec(db: Db, req: BulkSeatsRequest, now: int)
    ensures var (r, db') := CreateSeats(db, req, now);
      && (!req.shapeValid ==> r == Failure(InvalidInput) && db' == db)
      && (req.shapeValid && req.event >= |db.events| ==> r == Failure(NotFound) && db' == db)
      && (req.shapeValid && req.event < |db.events| && !AllConvert(req.seats, req.event) ==> r == Failure(ServerError) && db' == db)
      && (req.shapeValid && req.event < |db.events| && AllConvert(req.seats, req.event) ==>
            var docs := SeatDocs(req.seats, req.event);
            var n := InsertedPrefix(db.seats, docs);
            && db'.bookings == db.bookings
            && db'.seats == db.seats + docs[..n]
            && (forall k :: 0 <= k < n ==> docs[k].event == req.event)
            && (r == Failure(DuplicateSeatNumbers) <==> n < |docs|)
            && (n < |docs| ==> db'.events == db.events)
            && (r.Success? ==>
                  && r.value == |req.seats| && n == |docs|
                  && db'.events == db.events[req.event := db.events[req.event].(hasSeatSelection := true)])
            && (r.Success? <==> n == |docs| && Savable(db.events[req.event].(hasSeatSelection := true), now)))
  {
    if req.shapeValid && req.event < |db.events| && AllConvert(req.seats, req.event) {
      CreateSeatsInserted(db, req, now, SeatDocs(req.seats, req.event));
    }
  }

  /** Every converted document passes the seat schema and is tagged with the event. */
  lemma SeatDocsValid(inputs: seq<SeatInput>, event: EventId, docs: seq<Seat>)
    requires AllConvert(inputs, event) && docs == SeatDocs(inputs, event)
    ensures forall k :: 0 <= k < |docs| ==> SeatModel.Valid(docs[k]) && docs[k].event == event
  {
    forall k | 0 <= k < |docs| ensures SeatModel.Valid(docs[k]) && docs[k].event == event {
      FromInputSpec(inputs[k], event);
    }
  }

  lemma CreateSeatsInserted(db: Db, req: BulkSeatsRequest, now: int, docs: seq<Seat>)
    requires req.shapeValid && req.event < |db.events| && AllConvert(req.seats, req.event)
    requires docs == SeatDocs(req.seats, req.event)
    ensures var n := InsertedPrefix(db.seats, docs);
      var (r, db') := CreateSeats(db, req, now);
      && db'.bookings == db.bookings
      && db'.seats == db.seats + docs[..n]
      && (forall k :: 0 <= k < n ==> docs[k].event == req.event)
      && (r == Failure(DuplicateSeatNumbers) <==> n < |docs|)
      && (n < |docs| ==> db'.events == db.events)
      && (r.Success? ==>
            && r.value == |req.seats| && n == |docs|
            && db'.events == db.events[req.event := db.events[req.event].(hasSeatSelection := true)])
      && (r.Success? <==> n == |docs| && Savable(db.events[req.event].(hasSeatSelection := true), now))
  {
    SeatDocsValid(req.seats, req.event, docs);
    var n := InsertedPrefix(db.seats, docs);
    var db1 := db.(seats := db.seats + docs[..n]);
    InsertAndFlagSteps(db, req.event, docs, now, n, db1);
  }

  /** The reply and store of the insert and the flag, from the outcome of the insert. */
  lemma InsertAndFlagSteps(db: Db, event: EventId, docs: seq<Seat>, now: int, n: nat, db1: Db)
    requires event < |db.events|
    requires forall k :: 0 <= k < |docs| ==> SeatModel.Valid(docs[k])
    requires n == InsertedPrefix(db.seats, docs) && db1 == db.(seats := db.seats + docs[..n])
    ensures InsertSeats(db, docs) == (if n == |docs| then AllInserted else DuplicateKey, db1)
    ensures n < |docs| ==> InsertAndFlag(db, event, docs, now) == (Failure(DuplicateSeatNumbers), db1)
    ensures n == |docs| ==>
      var updated := db.events[event].(hasSeatSelection := true);
      InsertAndFlag(db, event, docs, now) ==
        if Savable(updated, now) then (Success(|docs|), db1.(events := db1.events[event := updated]))
        else (Failure(ServerError), db1)
  {
    InsertSeatsAllValid(db, docs);
  }

  /** "Duplicate seat numbers" is only reported when the next document really shares its
      seatNumber with a seat of the same event already stored, or stored earlier in the batch. */
  lemma CreateSeatsDuplicate(db: Db, req: BulkSeatsRequest, now: int)
    requires CreateSeats(db, req, now).0 == Failure(DuplicateSeatNumbers)
    ensures req.event < |db.events| && AllConvert(req.seats, req.event)
    ensures var docs := SeatDocs(req.seats, req.event);
      var n := InsertedPrefix(db.seats, docs);
      n < |docs| && Collides(db.seats + docs[..n], docs[n]) && CreateSeats(db, req, now).1.seats == db.seats + docs[..n]
  {
    CreateSeatsSpec(db, req, now);
    InsertedPrefixSpec(db.seats, SeatDocs(req.seats, req.event));
  }

  /** A bulk create keeps the store consistent, whatever its outcome. */
  lemma CreateSeatsConsistent(db: Db, req: BulkSeatsRequest, now: int)
    requires Consistent(db)
    ensures Consistent(CreateSeats(db, req, now).1)
  {
    if req.shapeValid && req.event < |db.events| && AllConvert(req.seats, req.event) {
      var docs := SeatDocs(req.seats, req.event);
      SeatDocsValid(req.seats, req.event, docs);
      var n := InsertedPrefix(db.seats, docs);
      var db1 := db.(seats := db.seats + docs[..n]);
      InsertAndFlagSteps(db, req.event, docs, now, n, db1);
      InsertSeatsConsistent(db, docs);
      var updated := db.events[req.event].(hasSeatSelection := true);
      if n == |docs| && Savable(updated, now) {
        SaveEventConsistent(db1, req.event, updated, now);
      }
    }
  }

  // ---- GET /bookings/:id/seats ----

  /** The event fields `populate('event', 'name date location')` brings in. */
  datatype EventHeader = EventHeader(id: EventId, name: string, date: int, location: string)

  /** The reply of `GET /bookings/:id/seats`; `bookingDate` is the creation timestamp. */
  datatype BookingSeatsView = BookingSeatsView(
    id: BookingId,
    event: Option<EventHeader>,
    seats: seq<Seat>,
    totalAmount: Option<int>,
    status: BookingStatus,
    bookingDate: int)

  /** `populate('seats')`: the stored seat for each listed id, in the booking's order; an id
      with no document is dropped. */
  function PopulateSeats(seats: seq<Seat>, ids: seq<SeatId>): (r: seq<Seat>)
    ensures |r| <= |ids|
    ensures forall s :: s in r ==> s in seats
  {
    if ids == [] then []
    else
      var rest := PopulateSeats(seats, ids[..|ids| - 1]);
      var last := ids[|ids| - 1];
      if last < |seats| then rest + [seats[last]] else rest
  }

  /** When every listed id has a document, each id becomes its seat, in order. */
  lemma {:induction false} PopulateSeatsAllPresent(seats: seq<Seat>, ids: seq<SeatId>)
    requires forall i :: 0 <= i < |ids| ==> ids[i] < |seats|
    ensures |PopulateSeats(seats, ids)| == |ids|
    ensures forall i :: 0 <= i < |ids| ==> PopulateSeats(seats, ids)[i] == seats[ids[i]]
  {
    if ids != [] {
      PopulateSeatsAllPresent(seats, ids[..|ids| - 1]);
    }
  }

  /** `findOne({_id: id, user})` with both references filled in: a booking that is not the
      caller's, or does not exist, is NotFound; a missing event fills in as nothing. */
  function GetBookingSeats(db: Db, user: UserId, id: BookingId): (r: Result<BookingSeatsView, Error>)
    ensures r.Failure? <==> id >= |db.bookings| || db.bookings[id].user != user
    ensures r.Failure? ==> r.error == NotFound
    ensures r.Success? ==>
      var b := db.bookings[id];
      && r.value.id == id && r.value.totalAmount == b.totalAmount
      && r.value.status == b.status && r.value.bookingDate == b.createdAt
      && (r.value.event.Some? <==> b.event < |db.events|)
  {
    if id >= |db.bookings| || db.bookings[id].user != user then Failure(NotFound)
    else
      var b := db.bookings[id];
      var header := if b.event < |db.events| then
          var e := db.events[b.event]; Some(EventHeader(b.event, e.name, e.date, e.location))
        else None;
      Success(BookingSeatsView(id, header, PopulateSeats(db.seats, b.seats), b.totalAmount, b.status, b.createdAt))
  }

  /** Reading back a seat booking just made shows, to its owner, exactly the requested seats
      in the requested order, each now booked, with the total the booking reply gave and the
      status Confirmed. */
  lemma BookedSeatsReadBack(db: Db, req: SeatRequest, now: int)
    requires BookSeats(db, req, now).0.Success?
    ensures var (r, db') := BookSeats(db, req, now);
      var v := GetBookingSeats(db', req.user, r.value.booking);
      && v.Success?
      && v.value.status == Confirmed
      && v.value.totalAmount == Some(r.value.totalAmount)
      && v.value.event.Some? && v.value.event.value.id == req.event
      && |v.value.seats| == |req.seatIds|
      && forall i :: 0 <= i < |req.seatIds| ==>
           req.seatIds[i] < |db.seats| && v.value.seats[i] == db.seats[req.seatIds[i]].(status := Booked)
  {
    BookSeatsSuccess(db, req, now);
    var (r, db') := BookSeats(db, req, now);
    ReadBackAfterBooking(db, db', req, now, r.value.totalAmount);
  }

  lemma ReadBackAfterBooking(db: Db, db1: Db, req: SeatRequest, now: int, total: int)
    requires req.event < |db.events| && |db1.events| == |db.events|
    requires db1.bookings == db.bookings + [NewSeatBooking(req, now, |req.seatIds|, total)]
    requires |db1.seats| == |db.seats|
    requires forall i :: 0 <= i < |req.seatIds| ==> req.seatIds[i] < |db.seats|
    requires forall i :: 0 <= i < |db.seats| && i in req.seatIds ==> db1.seats[i] == db.seats[i].(status := Booked)
    ensures var v := GetBookingSeats(db1, req.user, |db.bookings|);
      && v.Success?
      && v.value.status == Confirmed
      && v.value.totalAmount == Some(total)
      && v.value.event.Some? && v.value.event.value.id == req.event
      && |v.value.seats| == |req.seatIds|
      && forall i :: 0 <= i < |req.seatIds| ==>
           v.value.seats[i] == db.seats[req.seatIds[i]].(status := Booked)
  {
    var b := NewSeatBooking(req, now, |req.seatIds|, total);
    assert db1.bookings[|db.bookings|] == b;
    ReadBackOf(db1, req.user, |db.bookings|, b);
    forall i | 0 <= i < |req.seatIds| ensures db1.seats[req.seatIds[i]] == db.seats[req.seatIds[i]].(status := Booked) {
      assert req.seatIds[i] in req.seatIds;
    }
  }

  lemma ReadBackOf(db: Db, user: UserId, id: BookingId, b: Booking)
    requires id < |db.bookings| && db.bookings[id] == b && b.user == user && b.event < |db.events|
    requires forall i :: 0 <= i < |b.seats| ==> b.seats[i] < |db.seats|
    ensures var v := GetBookingSeats(db, user, id);
      && v.Success? && v.value.status == b.status && v.value.totalAmount == b.totalAmount
      && v.value.event.Some? && v.value.event.value.id == b.event
      && |v.value.seats| == |b.seats|
      && forall i :: 0 <= i < |b.seats| ==> v.value.seats[i] == db.seats[b.seats[i]]
  {
    PopulateSeatsAllPresent(db.seats, b.seats);
  }
}
