/** The event routes: the list of upcoming events in date order, the lookup of one event and
    the creation of an event whose counter starts full. */
module Events {
  import opened Wrappers
  import opened Strings
  import opened EventModel
  import opened Store
  import Sorting
  import Query

  /** `{id, name, date, location, available_seats, description}` as listed. */
  datatype EventSummary = EventSummary(
    id: EventId,
    name: string,
    date: int,
    location: string,
    availableSeats: int,
    description: string)

  /** The single-event format, which adds `total_seats`. */
  datatype EventDetail = EventDetail(
    id: EventId,
    name: string,
    date: int,
    location: string,
    availableSeats: int,
    totalSeats: int,
    description: string)

  function SummaryOf(id: EventId, e: Event): EventSummary {
    EventSummary(id, e.name, e.date, e.location, e.availableSeats, e.description)
  }

  function DetailOf(id: EventId, e: Event): EventDetail {
    EventDetail(id, e.name, e.date, e.location, e.availableSeats, e.totalSeats, e.description)
  }

  /** The filter `{date: {$gte: now}}`. */
  function Upcoming(now: int): (EventId, Event) -> bool {
    (id: EventId, e: Event) => e.date >= now
  }

  /** `sort({date: 1})`. */
  function ByDate(): (EventSummary, EventSummary) -> bool {
    (a: EventSummary, b: EventSummary) => a.date <= b.date
  }

  lemma ByDateTotalPreorder()
    ensures Sorting.TotalPreorder(ByDate())
  {
  }

  function UpcomingSummaries(db: Db, now: int): seq<EventSummary> {
    var ids := Query.Matching(db.events, Upcoming(now));
    seq(|ids|, i requires 0 <= i < |ids| => SummaryOf(ids[i], db.events[ids[i]]))
  }

  /** `GET /events`. */
  function ListEvents(db: Db, now: int): seq<EventSummary> {
    Sorting.InsertionSort(UpcomingSummaries(db, now), ByDate())
  }

  lemma UpcomingSummariesSpec(db: Db, now: int)
    ensures Sorting.Distinct(UpcomingSummaries(db, now))
    ensures forall id :: 0 <= id < |db.events| ==>
      (SummaryOf(id, db.events[id]) in UpcomingSummaries(db, now) <==> db.events[id].date >= now)
    ensures forall v :: v in UpcomingSummaries(db, now) ==> v.id < |db.events| && v == SummaryOf(v.id, db.events[v.id])
  {
    var ids := Query.Matching(db.events, Upcoming(now));
    var vs := UpcomingSummaries(db, now);
    forall i, j | 0 <= i < j < |vs| ensures vs[i] != vs[j] {
      assert vs[i].id == ids[i] && vs[j].id == ids[j];
    }
    forall id | 0 <= id < |db.events| && db.events[id].date >= now
      ensures SummaryOf(id, db.events[id]) in vs
    {
      assert Upcoming(now)(id, db.events[id]);
      var i :| 0 <= i < |ids| && ids[i] == id;
      assert vs[i] == SummaryOf(id, db.events[id]);
    }
    forall v | v in vs ensures v.id < |db.events| && v == SummaryOf(v.id, db.events[v.id]) && db.events[v.id].date >= now {
      var i :| 0 <= i < |vs| && vs[i] == v;
      assert v.id == ids[i];
      assert Upcoming(now)(ids[i], db.events[ids[i]]);
    }
  }

  /** The list holds every event dated at or after `now`, each once and nothing else, in
      ascending date order, and copies each event's fields (its counter among them) as stored. */
  lemma ListEventsSpec(db: Db, now: int)
    ensures Sorting.Sorted(ListEvents(db, now), ByDate())
    ensures Sorting.Distinct(ListEvents(db, now))
    ensures forall id :: 0 <= id < |db.events| ==>
      (SummaryOf(id, db.events[id]) in ListEvents(db, now) <==> db.events[id].date >= now)
    ensures forall v :: v in ListEvents(db, now) ==>
      && v.id < |db.events| && v == SummaryOf(v.id, db.events[v.id])
      && v.date >= now && v.availableSeats == db.events[v.id].availableSeats
  {
    var vs := UpcomingSummaries(db, now);
    var ls := ListEvents(db, now);
    UpcomingSummariesSpec(db, now);
    ByDateTotalPreorder();
    Sorting.InsertionSortSorted<EventSummary>(vs, ByDate());
    Sorting.InsertionSortDistinct<EventSummary>(vs, ByDate());
    forall v ensures v in ls <==> v in vs {
      Sorting.InsertionSortMembers<EventSummary>(vs, ByDate(), v);
    }
  }

  /** `GET /events/:id`; an id that does not name an event, malformed ones included, is
      NotFound. */
  function GetEvent(db: Db, id: EventId): (r: Result<EventDetail, Error>)
    ensures id >= |db.events| <==> r == Failure(NotFound)
    ensures r.Failure? ==> r.error == NotFound
    ensures r.Success? ==> var e := db.events[id];
      && r.value.id == id && r.value.name == e.name && r.value.date == e.date
      && r.value.location == e.location && r.value.description == e.description
      && r.value.availableSeats == e.availableSeats && r.value.totalSeats == e.totalSeats
  {
    if id >= |db.events| then Failure(NotFound) else Success(DetailOf(id, db.events[id]))
  }

  /** The body of `POST /events`; `None` is a missing field (for the date, also one that does
      not parse). */
  datatype EventRequest = EventRequest(
    name: Option<string>,
    date: Option<int>,
    location: Option<string>,
    totalSeats: Option<int>,
    description: Option<string>)

  /** `new Event({..., available_seats: total_seats})`: the `trim` setters apply, and the
      document exists only when the required fields are present. */
  function NewEvent(req: EventRequest): (r: Option<Event>)
    ensures r.Some? <==> req.name.Some? && req.date.Some? && req.location.Some? && req.totalSeats.Some?
    ensures r.Some? ==>
      && r.value.availableSeats == r.value.totalSeats == req.totalSeats.value
      && r.value.name == Trim(req.name.value) && r.value.location == Trim(req.location.value)
      && r.value.description == (if req.description.Some? then Trim(req.description.value) else "")
      && r.value.date == req.date.value
      && !r.value.hasSeatSelection && r.value.seatLayout.None?
  {
    if req.name.None? || req.date.None? || req.location.None? || req.totalSeats.None? then None
    else
      Some(Event(Trim(req.name.value), req.date.value, Trim(req.location.value),
                 if req.description.Some? then Trim(req.description.value) else "",
                 req.totalSeats.value, req.totalSeats.value, false, None))
  }

  /** `POST /events`: every failure (a missing field, a validator, a past date) is a server
      error and stores nothing; success appends the event, which takes the next id. */
  function CreateEvent(db: Db, req: EventRequest, now: int): (Result<EventSummary, Error>, Db) {
    match NewEvent(req)
    case None => (Failure(ServerError), db)
    case Some(e) =>
      match SaveNewEvent(db, e, now)
      case None => (Failure(ServerError), db)
      case Some(db1) => (Success(SummaryOf(|db.events|, e)), db1)
  }

  /** A created event starts with all its seats available and no seat selection; it is
      appended and nothing else changes. Creation succeeds exactly when the required fields are
      there, the trimmed strings fit the schema, `total_seats >= 1` and the date is not past. */
  lemma CreateEventSpec(db: Db, req: EventRequest, now: int)
    ensures var (r, db') := CreateEvent(db, req, now);
      && (r.Failure? ==> r.error == ServerError && db' == db)
      && (r.Success? <==> NewEvent(req).Some? && Savable(NewEvent(req).value, now))
      && (r.Success? ==>
            var e := NewEvent(req).value;
            && db' == db.(events := db.events + [e])
            && r.value == SummaryOf(|db.events|, e)
            && e.availableSeats == e.totalSeats >= 1
            && !e.hasSeatSelection)
  {
  }

  /** The event just created is found by its id, with its counter full, and is listed among
      the upcoming events. */
  lemma CreatedEventIsListed(db: Db, req: EventRequest, now: int)
    requires CreateEvent(db, req, now).0.Success?
    ensures var (r, db') := CreateEvent(db, req, now);
      && GetEvent(db', r.value.id).Success?
      && GetEvent(db', r.value.id).value.availableSeats == GetEvent(db', r.value.id).value.totalSeats
      && r.value in ListEvents(db', now)
  {
    var (r, db') := CreateEvent(db, req, now);
    CreateEventSpec(db, req, now);
    ListEventsSpec(db', now);
    var id := |db.events|;
    assert db'.events[id] == NewEvent(req).value;
    assert r.value == SummaryOf(id, db'.events[id]);
  }

  lemma CreateEventConsistent(db: Db, req: EventRequest, now: int)
    requires Consistent(db)
    ensures Consistent(CreateEvent(db, req, now).1)
  {
    if NewEvent(req).Some? && SaveNewEvent(db, NewEvent(req).value, now).Some? {
      SaveNewEventConsistent(db, NewEvent(req).value, now);
    }
  }
}
