/** The three collections and the write primitives the handlers use. A save runs the
    schema's validators (and, for events, the pre-save hook) and then writes, or writes
    nothing and throws; the handlers turn a throw into a server error. Documents are never
    deleted, so each collection is a sequence indexed by document id. */
module Store {
  import opened Wrappers
  import opened EventModel
  import opened SeatModel
  import opened BookingModel

  datatype Db = Db(events: seq<Event>, seats: seq<Seat>, bookings: seq<Booking>)

  /** The distinguishable outcomes the handlers report instead of success. */
  datatype Error =
    | InvalidInput
    | NotFound
    | PastEvent
    | NotEnoughSeats(available: int)
    | AlreadyBooked
    | AlreadyCancelled
    | SeatsUnavailable
    | DuplicateSeatNumbers
    | ServerError

  /** Everything the schemas and indexes guarantee of stored documents, plus the fact that
      seats and bookings refer to events that exist. */
  predicate Consistent(db: Db) {
    && (forall e :: e in db.events ==> FieldsValid(e))
    && (forall s :: s in db.seats ==> SeatModel.Valid(s) && s.event < |db.events|)
    && IndexUnique(db.seats)
    && (forall b :: b in db.bookings ==> BookingModel.Valid(b) && b.event < |db.events|)
    && ConfirmedUnique(db.bookings)
  }

  /** `event.save()` on a loaded event. */
  function SaveEvent(db: Db, id: EventId, e: Event, now: int): (r: Option<Db>)
    requires id < |db.events|
    ensures r.Some? <==> Savable(e, now)
    ensures r.Some? ==> r.value == db.(events := db.events[id := e])
  {
    if Savable(e, now) then Some(db.(events := db.events[id := e])) else None
  }

  /** `event.save()` on a new event, which receives the next id. */
  function SaveNewEvent(db: Db, e: Event, now: int): (r: Option<Db>)
    ensures r.Some? <==> Savable(e, now)
    ensures r.Some? ==> r.value == db.(events := db.events + [e])
  {
    if Savable(e, now) then Some(db.(events := db.events + [e])) else None
  }

  /** `booking.save()` on a loaded booking: validators, then the partial unique index. */
  function SaveBooking(db: Db, id: BookingId, b: Booking): (r: Option<Db>)
    requires id < |db.bookings|
    ensures r.Some? <==> BookingModel.Valid(b) && !ClashesWithIndex(db.bookings, id, b)
    ensures r.Some? ==> r.value == db.(bookings := db.bookings[id := b])
  {
    if BookingModel.Valid(b) && !ClashesWithIndex(db.bookings, id, b) then
      Some(db.(bookings := db.bookings[id := b]))
    else None
  }

  /** `booking.save()` on a new booking, which receives the next id. */
  function SaveNewBooking(db: Db, b: Booking): (r: Option<Db>)
    ensures r.Some? <==> BookingModel.Valid(b) && !ClashesWithIndex(db.bookings, -1, b)
    ensures r.Some? ==> r.value == db.(bookings := db.bookings + [b])
  {
    if BookingModel.Valid(b) && !ClashesWithIndex(db.bookings, -1, b) then
      Some(db.(bookings := db.bookings + [b]))
    else None
  }

  /** `Seat.updateMany({_id: {$in: ids}}, {status: 'booked'})`: no validators run, every listed
      seat becomes booked and no other seat changes. */
  function MarkBooked(seats: seq<Seat>, ids: seq<SeatId>): (r: seq<Seat>)
    ensures |r| == |seats|
    ensures forall i :: 0 <= i < |seats| && i in ids ==> r[i] == seats[i].(status := Booked)
    ensures forall i :: 0 <= i < |seats| && i !in ids ==> r[i] == seats[i]
  {
    seq(|seats|, i requires 0 <= i < |seats| => if i in ids then seats[i].(status := Booked) else seats[i])
  }

  predicate Collides(seats: seq<Seat>, d: Seat) {
    exists i :: 0 <= i < |seats| && SameIndexKey(seats[i], d)
  }

  /** How many documents an ordered insert stores before the first one the
      (event, seatNumber) index refuses; the rest are not attempted. */
  function InsertedPrefix(seats: seq<Seat>, docs: seq<Seat>): (n: nat)
    ensures n <= |docs|
    decreases |docs|
  {
    if docs == [] || Collides(seats, docs[0]) then 0
    else 1 + InsertedPrefix(seats + [docs[0]], docs[1..])
  }

  /** The documents stored are exactly those before the first collision: none of them
      collides with what is stored before it, and the next one does. */
  lemma {:induction false} InsertedPrefixSpec(seats: seq<Seat>, docs: seq<Seat>)
    ensures var n := InsertedPrefix(seats, docs);
      && (forall k :: 0 <= k < n ==> !Collides(seats + docs[..k], docs[k]))
      && (n < |docs| ==> Collides(seats + docs[..n], docs[n]))
    decreases |docs|
  {
    assert seats + docs[..0] == seats;
    if docs != [] && !Collides(seats, docs[0]) {
      var m := InsertedPrefix(seats + [docs[0]], docs[1..]);
      InsertedPrefixSpec(seats + [docs[0]], docs[1..]);
      assert forall k :: 0 <= k <= m ==> (seats + [docs[0]]) + docs[1..][..k] == seats + docs[..k + 1];
      forall k | 0 <= k < 1 + m ensures !Collides(seats + docs[..k], docs[k]) {
        if k > 0 {
          assert docs[1..][k - 1] == docs[k];
        }
      }
      if 1 + m < |docs| {
        assert docs[1..][m] == docs[1 + m];
      }
    }
  }

  datatype InsertOutcome = AllInserted | DuplicateKey | ValidationFailed

  /** `Seat.insertMany(docs)`, ordered: every document is validated first and a failure stores
      nothing; then documents are stored in order until one breaks the unique index, and the
      ones before it stay stored. */
  function InsertSeats(db: Db, docs: seq<Seat>): (r: (InsertOutcome, Db))
    ensures r.0 == ValidationFailed <==> exists k :: 0 <= k < |docs| && !SeatModel.Valid(docs[k])
    ensures r.0 == ValidationFailed ==> r.1 == db
    ensures r.0 != ValidationFailed ==>
      var n := InsertedPrefix(db.seats, docs);
      && r.1 == db.(seats := db.seats + docs[..n])
      && (r.0 == AllInserted <==> n == |docs|)
  {
    if exists k :: 0 <= k < |docs| && !SeatModel.Valid(docs[k]) then (ValidationFailed, db)
    else
      var n := InsertedPrefix(db.seats, docs);
      (if n == |docs| then AllInserted else DuplicateKey, db.(seats := db.seats + docs[..n]))
  }

  /** With every document valid, the insert stores the prefix before the first collision and
      reports whether that was all of them. */
  lemma InsertSeatsAllValid(db: Db, docs: seq<Seat>)
    requires forall k :: 0 <= k < |docs| ==> SeatModel.Valid(docs[k])
    ensures var n := InsertedPrefix(db.seats, docs);
      InsertSeats(db, docs) == (if n == |docs| then AllInserted else DuplicateKey, db.(seats := db.seats + docs[..n]))
  {
  }

  lemma SaveEventConsistent(db: Db, id: EventId, e: Event, now: int)
    requires Consistent(db) && id < |db.events| && SaveEvent(db, id, e, now).Some?
    ensures Consistent(SaveEvent(db, id, e, now).value)
  {
    var db' := SaveEvent(db, id, e, now).value;
    forall x | x in db'.events ensures FieldsValid(x) {
      var k :| 0 <= k < |db'.events| && db'.events[k] == x;
      if k != id { assert x == db.events[k]; }
    }
  }

  lemma SaveNewEventConsistent(db: Db, e: Event, now: int)
    requires Consistent(db) && SaveNewEvent(db, e, now).Some?
    ensures Consistent(SaveNewEvent(db, e, now).value)
  {
    var db' := SaveNewEvent(db, e, now).value;
    forall x | x in db'.events ensures FieldsValid(x) {
      var k :| 0 <= k < |db'.events| && db'.events[k] == x;
      if k < |db.events| { assert x == db.events[k]; }
    }
  }

  lemma SaveBookingConsistent(db: Db, id: BookingId, b: Booking)
    requires Consistent(db) && id < |db.bookings| && b.event < |db.events|
    requires SaveBooking(db, id, b).Some?
    ensures Consistent(SaveBooking(db, id, b).value)
  {
    var bs := db.bookings[id := b];
    forall x | x in bs ensures BookingModel.Valid(x) && x.event < |db.events| {
      var k :| 0 <= k < |bs| && bs[k] == x;
      if k != id { assert x == db.bookings[k]; }
    }
    forall i, j | 0 <= i < j < |bs| && bs[i].status == Confirmed
      ensures !ConfirmedFor(bs[j], bs[i].user, bs[i].event)
    {
      if i == id {
        assert !ConfirmedFor(db.bookings[j], b.user, b.event);
      } else if j == id {
        assert b.status == Confirmed && ConfirmedFor(db.bookings[i], b.user, b.event) ==>
          ClashesWithIndex(db.bookings, id, b);
      }
    }
  }

  lemma SaveNewBookingConsistent(db: Db, b: Booking)
    requires Consistent(db) && b.event < |db.events| && SaveNewBooking(db, b).Some?
    ensures Consistent(SaveNewBooking(db, b).value)
  {
    var bs := db.bookings + [b];
    forall x | x in bs ensures BookingModel.Valid(x) && x.event < |db.events| {
      var k :| 0 <= k < |bs| && bs[k] == x;
      if k < |db.bookings| { assert x == db.bookings[k]; }
    }
    forall i, j | 0 <= i < j < |bs| && bs[i].status == Confirmed
      ensures !ConfirmedFor(bs[j], bs[i].user, bs[i].event)
    {
      if j == |db.bookings| {
        assert b.status == Confirmed && ConfirmedFor(db.bookings[i], b.user, b.event) ==>
          ClashesWithIndex(db.bookings, -1, b);
      }
    }
  }

  lemma MarkBookedConsistent(db: Db, ids: seq<SeatId>)
    requires Consistent(db)
    ensures Consistent(db.(seats := MarkBooked(db.seats, ids)))
  {
    var ss := MarkBooked(db.seats, ids);
    forall x | x in ss ensures SeatModel.Valid(x) && x.event < |db.events| {
      var k :| 0 <= k < |ss| && ss[k] == x;
      assert db.seats[k] in db.seats;
    }
    MarkBookedKeepsIndex(db.seats, ids);
  }

  /** Marking seats booked changes no index key. */
  lemma MarkBookedKeepsIndex(seats: seq<Seat>, ids: seq<SeatId>)
    requires IndexUnique(seats)
    ensures IndexUnique(MarkBooked(seats, ids))
  {
    var ss := MarkBooked(seats, ids);
    forall i, j | 0 <= i < j < |ss| ensures !SameIndexKey(ss[i], ss[j]) {
      assert !SameIndexKey(seats[i], seats[j]);
    }
  }

  /** An ordered insert never breaks the (event, seatNumber) index, however it ends. */
  lemma InsertSeatsConsistent(db: Db, docs: seq<Seat>)
    requires Consistent(db)
    requires forall k :: 0 <= k < |docs| ==> docs[k].event < |db.events|
    ensures Consistent(InsertSeats(db, docs).1)
  {
    if !exists k :: 0 <= k < |docs| && !SeatModel.Valid(docs[k]) {
      var n := InsertedPrefix(db.seats, docs);
      InsertedPrefixSpec(db.seats, docs);
      var ss := db.seats + docs[..n];
      forall x | x in ss ensures SeatModel.Valid(x) && x.event < |db.events| {
        var k :| 0 <= k < |ss| && ss[k] == x;
        if k < |db.seats| { assert x == db.seats[k]; } else { assert x == docs[k - |db.seats|]; }
      }
      forall i, j | 0 <= i < j < |ss| ensures !SameIndexKey(ss[i], ss[j]) {
        if j >= |db.seats| {
          var k := j - |db.seats|;
          assert ss[j] == docs[k];
          assert (db.seats + docs[..k])[i] == ss[i];
          assert !Collides(db.seats + docs[..k], docs[k]);
        } else {
          assert ss[i] == db.seats[i] && ss[j] == db.seats[j];
        }
      }
    }
  }
}
