# Event ticketing: bookings and seat inventory

This project models the booking and inventory core of an event-ticketing backend written in
JavaScript (Express and Mongoose) and proves properties of that model in Dafny. The core
covers:

- the ticket routes: book a number of tickets, list the caller's bookings, cancel a booking;
- the seat routes: book specific seats, list an event's seats grouped by section and row,
  create seats in bulk, and read a booking back with its seats;
- the event routes: list upcoming events, look one up, create one;
- the three schemas (Event, Booking, Seat) with their validators, the pre-save date hook and
  the two unique indexes;
- the two scripts that generate an 8 by 10 seat grid.

The store is three collections: events, seats and bookings. No operation in the core deletes
a document, so each collection is a sequence and a document's id is its position. An id that
names no document is one past the end. Time is an integer timestamp `now`, passed in.

The model comes in two layers.

- Every handler is a pure function from the store before the request to its reply and the
  store after it (modules `Bookings`, `Seats`, `SeatListing`, `Events`, `CreateSeatsScript`,
  `SeedSeatSystem`). The properties are proved about these functions. A save goes through
  the write primitives of module `Store`. Each primitive runs the schema's checks, then
  writes or writes nothing. The handler turns a refused write into a server error, and
  writes made before it stay.
- `Server.Database` is the store as a class with three mutable collections. Its methods run
  the guards on the current state and then call the write primitives one after another, as
  the route handlers do. Each method's contract says that its reply and new state are
  exactly those of the handler's function. The loops of the source (the two grid generators,
  `updateMany`, the ordered `insertMany` and the grouping `reduce`) are methods with loop
  invariants, proved equal to their specification functions.

Outcomes that the source separates by status code and message are separate constructors of
`Store.Error`: `InvalidInput` (400 from the validators), `NotFound`, `PastEvent`,
`NotEnoughSeats(available)`, `AlreadyBooked`, `AlreadyCancelled`, `SeatsUnavailable`,
`DuplicateSeatNumbers` and `ServerError` (500).

## Model

| member | source | states |
|---|---|---|
| EventModel.RoundedPrice | scripts/createSeats.js:48 | `Math.round(base * m)` for an integer base and a multiplier in tenths: the result r satisfies 10r − 5 ≤ base·m < 10r + 5, so it is the nearest integer with halves rounded up |
| SeatModel.ParseStatus | models/Seat.js:29-33 | an absent status defaults to available; a given one is accepted exactly when it is available, booked or reserved, and maps back to the same name |
| SeatModel.ParseType | models/Seat.js:34-38 | an absent type defaults to regular; a given one is accepted exactly when it is regular, vip or premium, and maps back to the same name |
| EventModel.FieldsValid | models/Event.js:4-34 | definition, no contract of its own: required non-empty name and location, the 100, 200 and 500 length limits, available_seats ≥ 0 and total_seats ≥ 1; Store.SaveEvent and Store.SaveNewEvent state what it admits |
| BookingModel.Valid | models/Booking.js:24-39 | definition, no contract of its own: tickets in 1..10 and a present totalAmount ≥ 0; Store.SaveBooking and Store.SaveNewBooking state what it admits |
| SeatModel.FromInput | models/Seat.js:3-38 | definition, no contract of its own: builds the seat document with the schema's trims and defaults; SeatModel.FromInputSpec states when it exists and what it holds |
| SeatModel.FromInputSpec | models/Seat.js:1-47 | a seat document is built exactly when the trimmed seatNumber and row are non-empty, the price is at least 0 and both enums accept; it is valid, tagged with the event, and the section defaults to General |
| SeatModel.FromInputToInput | models/Seat.js:9-38 | writing a stored, trimmed seat back out as input and building it again gives the same seat |
| Store.SaveEvent | models/Event.js:1-47 | saving a loaded event succeeds exactly when the field validators pass and its date is not before now (also for a save that only changes counters); then only that event is replaced |
| Store.SaveNewEvent | models/Event.js:1-47 | saving a new event succeeds under the same condition and appends it, giving it the next id |
| Store.SaveBooking | models/Booking.js:24-54 | saving a loaded booking succeeds exactly when tickets are in 1..10, totalAmount is present and at least 0, and no other Confirmed booking has the same (user, event); then only that booking is replaced |
| Store.SaveNewBooking | models/Booking.js:24-54 | the same for a new booking, which is appended |
| Store.MarkBooked | routes/seats.js:176-180 | `updateMany`: every listed seat becomes booked, with no validation, and no other seat changes |
| Store.InsertedPrefixSpec | models/Seat.js:43-44 | the ordered insert stores the documents before the first one whose (event, seatNumber) is already stored: none of those collides with what is stored before it, and the next one does |
| Store.InsertSeats | models/Seat.js:43-44 | `insertMany`: a document failing validation stores nothing; otherwise the stored prefix is added, and the outcome is complete exactly when every document went in |
| Store.SaveEventConsistent | models/Event.js:1-47 | an event save keeps the store consistent: stored documents pass their schemas, references point at existing events, both unique indexes hold |
| Store.SaveNewEventConsistent | models/Event.js:1-47 | the same for a new event |
| Store.SaveBookingConsistent | models/Booking.js:53-54 | a booking save keeps the store consistent, in particular the one-Confirmed-booking-per-(user, event) index |
| Store.SaveNewBookingConsistent | models/Booking.js:53-54 | the same for a new booking |
| Store.MarkBookedConsistent | routes/seats.js:176-180 | marking seats booked keeps the store consistent |
| Store.InsertSeatsConsistent | models/Seat.js:43-44 | an insert, complete or stopped at a duplicate, keeps the (event, seatNumber) index unique |
| Bookings.PlaceTickets | routes/bookings.js:10-85 | definition, no contract of its own: the ticket handler, with the booking's total as a parameter; Bookings.PlaceTicketsRejections and Bookings.PlaceTicketsSuccess state its outcomes |
| Bookings.BookTickets | routes/bookings.js:61-75 | definition, no contract of its own: the handler as written, whose booking has no total; Bookings.BookTicketsNeverSucceeds states its outcome |
| Bookings.BookTicketsCorrected | routes/bookings.js:61-75 | definition, no contract of its own: the handler with a zero total; Bookings.BookTicketsCorrectedSucceeds states its outcome |
| Bookings.PlaceTicketsRejections | routes/bookings.js:12-59 | the guards fire in the source's order — invalid input, NotFound, PastEvent, NotEnoughSeats reporting the current counter, AlreadyBooked — and each leaves the store unchanged; past them, success happens exactly when the booking carries a total that is at least 0 |
| Bookings.PlaceTicketsSuccess | routes/bookings.js:61-80 | a success appends one Confirmed booking for the caller with the requested tickets under the next id, lowers that event's counter by exactly the tickets (it stays ≥ 0), and changes nothing else |
| Bookings.BookTicketsNeverSucceeds | routes/bookings.js:61-75 | as written, the booking lacks the required totalAmount, so every request fails, a request that passes every guard fails with a server error, and the store never changes |
| Bookings.BookTicketsCorrectedSucceeds | routes/bookings.js:61-75 | with the total set, a request that passes every guard on a consistent store is stored under the next id |
| Bookings.BookTicketsConsistent | routes/bookings.js:61-75 | booking keeps the store consistent |
| Bookings.ListBookings | routes/bookings.js:88-111 | definition, no contract of its own: the caller's bookings with their events, newest first; Bookings.ListBookingsSpec states its result |
| Bookings.UserBookingIdsSpec | routes/bookings.js:90-92 | the query yields exactly the caller's bookings, each once, newest first |
| Bookings.ListBookingsSpec | routes/bookings.js:88-111 | on a consistent store the list succeeds and holds every booking of the caller, Confirmed and Cancelled alike, with its tickets and status, no one else's, each once, newest first |
| Bookings.CancelBooking | routes/bookings.js:114-154 | definition, no contract of its own: the guards, then the event save, then the booking save; Bookings.CancelBookingSpec states its outcomes |
| Bookings.CancelBookingSpec | routes/bookings.js:114-154 | someone else's or an unknown booking is NotFound, a cancelled one AlreadyCancelled, one for a past event PastEvent, all without change; otherwise the booking becomes Cancelled, the event gets back exactly its tickets, and the seats are untouched |
| Bookings.BookThenCancelRestores | routes/bookings.js:135-144 | booking and then cancelling that booking gives every event its original counter back; the store gains one Cancelled booking |
| Bookings.CancelAllowsRebooking | models/Booking.js:53-54 | after a cancel the caller has no Confirmed booking for that event, so the duplicate guard no longer stops a new one |
| Bookings.CancelBookingConsistent | routes/bookings.js:134-144 | cancelling keeps the store consistent |
| Bookings.CancelDoesNotClamp | routes/bookings.js:137-142 | cancel adds the tickets back with no cap: when counter plus tickets exceeds total_seats, the cancel still succeeds and leaves more seats available than the event has |
| Bookings.CancelOverfillsExample | routes/bookings.js:137-142 | a concrete consistent store where that happens: a full two-seat event and a one-ticket Confirmed booking, after which three seats are available |
| Seats.TotalPrice | routes/seats.js:149 | the sum of the found seats' prices; it is at least 0 when every price is |
| Seats.FoundAllIff | routes/seats.js:135-146 | the count check passes exactly when the requested ids are distinct and each names an available seat of this event; then the found seats are exactly the requested ones |
| Seats.BookSeats | routes/seats.js:108-212 | definition, no contract of its own: the seat handler as written; Seats.BookSeatsGuards, Seats.BookSeatsSuccess, Seats.MoreThanTenSeatsStranded and Seats.CounterShortStranded state its outcomes |
| Seats.CommitSeatBooking | routes/seats.js:164-186 | definition, no contract of its own: the writes after the guards, marking the seats, then saving the booking, then the event, each persisting on its own |
| Seats.BookSeatsAtomic | routes/seats.js:108-186 | definition, no contract of its own: the same guards with an all-or-nothing commit; Seats.BookSeatsAtomicSpec and Seats.BookSeatsAtomicCounterShort state its outcomes |
| Seats.BookSeatsGuards | routes/seats.js:108-162 | invalid input or an empty list, then NotFound, then PastEvent, then SeatsUnavailable (an unknown, foreign, taken or repeated id), then AlreadyBooked, in that order, each before any seat changes and leaving the store as it was |
| Seats.BookSeatsSuccess | routes/seats.js:164-207 | a success books exactly the requested seats, all previously available seats of the event, leaves every other seat alone, lowers the counter by their number (it stays ≥ 0), and appends one Confirmed booking that records the seat list, tickets = seats.length and a total equal to the sum of their prices |
| Seats.MoreThanTenSeatsStranded | routes/seats.js:176-186 | as written, a request for more than ten bookable seats marks them booked and then fails at `booking.save()`: no booking, no counter change, yet the seats stay booked |
| Seats.CounterShortStranded | routes/seats.js:136-186 | as written, when the event's counter is below the number of requested seats that all pass the guards, the seats are booked and a Confirmed booking is stored, then the event save fails `min: 0`: a server error, the counter unchanged, and the caller's own booking makes every retry AlreadyBooked |
| Seats.BookSeatsAtomicSpec | routes/seats.js:164-186 | with all-or-nothing commit, every failure leaves the store unchanged, and every success is the same reply and store as the handler as written |
| Seats.BookSeatsAtomicCounterShort | routes/seats.js:164-186 | with all-or-nothing commit, a request for more seats than the counter allows fails and leaves the store unchanged |
| Seats.BookSeatsConsistent | routes/seats.js:164-186 | a seat booking keeps the store consistent, whatever its outcome |
| Seats.BookSeatsThenCancel | routes/bookings.js:134-144 | cancelling a seat booking through the cancel route succeeds and restores every counter, but leaves all seats as they were, so the booked seats stay booked |
| Seats.SeatDocs | routes/seats.js:83-86 | one document per input, each the schema's document for that input tagged with the event |
| Seats.CreateSeats | routes/seats.js:64-105 | definition, no contract of its own: the bulk-create handler; Seats.CreateSeatsSpec and Seats.CreateSeatsDuplicate state its outcomes |
| Seats.InsertAndFlag | routes/seats.js:88-103 | definition, no contract of its own: `insertMany`, then the flag save, with the error mapping of the catch block |
| Seats.CreateSeatsSpec | routes/seats.js:64-105 | invalid input, NotFound and a document failing the schema change nothing; otherwise the stored seats are a prefix of the documents, tagged with the event; "Duplicate seat numbers" is reported exactly when the insert stopped early, and then the event is unchanged; success stores all of them, reports their number and sets has_seat_selection |
| Seats.CreateSeatsDuplicate | routes/seats.js:98-102 | a duplicate report means the next document really shares (event, seatNumber) with a stored seat, and the seats before it stay stored |
| Seats.CreateSeatsConsistent | routes/seats.js:83-92 | a bulk create keeps the store consistent, whatever its outcome |
| Seats.PopulateSeats | routes/seats.js:220 | `populate('seats')` gives at most one seat per listed id, and each is a stored seat |
| Seats.PopulateSeatsAllPresent | routes/seats.js:217-220 | when every listed seat exists, `populate('seats')` gives each id's seat in the booking's order |
| Seats.GetBookingSeats | routes/seats.js:215-240 | NotFound exactly when the booking does not exist or is not the caller's; otherwise the reply copies the total, status and booking date, and has its event exactly when the event exists |
| Seats.BookedSeatsReadBack | routes/seats.js:215-240 | reading back a seat booking just made shows its owner exactly the requested seats in order, each now booked, with the total of the booking reply and status Confirmed |
| SeatListing.RowSeatLeTotalPreorder | routes/seats.js:27 | `sort({row: 1, seatNumber: 1})` is a total preorder |
| SeatListing.ListedViews | routes/seats.js:21-27 | definition, no contract of its own: the filtered query, sorted; SeatListing.ListedViewsSpec states its result |
| SeatListing.ListedViewsSpec | routes/seats.js:21-27 | the query returns exactly the event's seats matching the optional section and row filters, each once, sorted by row and then seat number |
| SeatListing.KeysOfSpec | routes/seats.js:29-37 | the group keys are distinct and are exactly the `section-row` keys of the seats, in order of first appearance |
| SeatListing.GroupsOf | routes/seats.js:29-46 | there is one group per distinct key |
| SeatListing.GroupsPartition | routes/seats.js:29-46 | every listed seat is in a group with its own key, and in only one |
| SeatListing.GroupContents | routes/seats.js:29-46 | a group holds exactly the seats with its key, in listing order, so sorted input gives sorted groups, and its section and row form its key |
| SeatListing.GroupNamesItsSeats | routes/seats.js:30-36 | when no section name contains '-', each group's section and row are those of every seat in it |
| SeatListing.KeysCollide | routes/seats.js:30 | a section name containing '-' can make two different (section, row) pairs share a key, and their seats are merged into one group |
| SeatListing.GroupSeats | routes/seats.js:29-49 | the `reduce` into a key-indexed accumulator, followed by `Object.values`, yields exactly the specified groups in first-appearance order |
| SeatListing.GetSeats | routes/seats.js:12-61 | NotFound for a missing event; otherwise the grouped, sorted, filtered seats and the event's name, seat-selection flag and layout |
| Events.ListEvents | routes/events.js:8-28 | definition, no contract of its own: the upcoming events sorted by date; Events.ListEventsSpec states its result |
| Events.ListEventsSpec | routes/events.js:8-28 | the list holds every event dated at or after now, each once and nothing else, sorted by ascending date, with its fields and counter copied unchanged |
| Events.GetEvent | routes/events.js:31-57 | NotFound exactly when the id names no event; otherwise the detail copies name, date, location, description, available_seats and total_seats |
| Events.NewEvent | routes/events.js:62-71 | the new event exists exactly when the required fields are given; it starts with available_seats = total_seats, trimmed strings, no seat selection |
| Events.CreateEvent | routes/events.js:60-89 | definition, no contract of its own: build the event, then save it; Events.CreateEventSpec states its outcomes |
| Events.CreateEventSpec | routes/events.js:60-89 | every failure is a server error that stores nothing; creation succeeds exactly when the new event passes its schema and date hook, and then appends it with a full counter and total_seats ≥ 1 |
| Events.CreatedEventIsListed | routes/events.js:60-89 | a created event is found by its id with a full counter and appears in the upcoming list |
| Events.CreateEventConsistent | routes/events.js:64-73 | creating an event keeps the store consistent |
| CreateSeatsScript.Grid | scripts/createSeats.js:18-24 | the grid has 8 × 10 = 80 seats |
| CreateSeatsScript.BuildGrid | scripts/createSeats.js:18-53 | the nested loops build exactly the grid, row by row |
| CreateSeatsScript.GridSeatsValid | scripts/createSeats.js:43-51 | every generated seat is available and belongs to the event; with a non-negative base price each passes the seat schema |
| CreateSeatsScript.GridMatchesLayout | scripts/createSeats.js:26-68 | the layout has 8 rows of 10, and for every seat exactly one layout section lists its row, with that seat's section name and a multiplier giving its price; the seat's type is vip in the first two rows, premium in the next three and regular in the rest |
| CreateSeatsScript.GridRowsUnique | scripts/createSeats.js:23-25 | no two generated seats share both row and seat number |
| CreateSeatsScript.GridBreaksIndex | scripts/createSeats.js:24-25 | seat 1 of row A and seat 1 of row B share (event, seatNumber), so the grid breaks the unique index |
| CreateSeatsScript.RunScript | scripts/createSeats.js:11-75 | definition, no contract of its own: the script's steps; CreateSeatsScript.ScriptNeverCompletes and CreateSeatsScript.ScriptStoresFirstRow state its outcomes |
| CreateSeatsScript.InsertStopsWithinFirstRow | scripts/createSeats.js:56 | whatever is stored, the insert stops within the first row |
| CreateSeatsScript.ScriptNeverCompletes | scripts/createSeats.js:56-69 | so the script never reaches the layout update, and the event is never changed |
| CreateSeatsScript.ScriptStoresFirstRow | scripts/createSeats.js:11-75 | for an event with no seats and a base price ≥ 0, the script stores exactly the ten seats of row A and fails |
| SeedSeatSystem.FindSection | scripts/seedSeatSystem.js:41 | `find` returns nothing exactly when no section lists the row; otherwise the first section that lists it |
| SeedSeatSystem.SeedGrid | scripts/seedSeatSystem.js:36-57 | the seed grid has 8 × 10 seats |
| SeedSeatSystem.BuildSeedSeats | scripts/seedSeatSystem.js:36-57 | the nested loops build exactly the seed grid |
| SeedSeatSystem.SampleSectionsPartitionRows | scripts/seedSeatSystem.js:23-27 | the sample sections split rows A to H: each row is listed by exactly one section, the one `find` returns |
| SeedSeatSystem.SampleSeats | scripts/seedSeatSystem.js:39-57 | rows A and B are VIP/vip at 100, C to E Premium/premium at 75, F to H General/regular at 50; every seat is available, belongs to the sample event and has its row letter and number |
| SeedSeatSystem.SampleCounts | scripts/seedSeatSystem.js:17-22 | the grid has total_seats seats, rows × seats_per_row = total_seats, and the counter starts full |
| SeedSeatSystem.RunSeed | scripts/seedSeatSystem.js:6-88 | definition, no contract of its own: save the sample event, insert its seats, save the regular event; SeedSeatSystem.SeedStopsAfterFirstRow states its outcome |
| SeedSeatSystem.SeedStopsAfterFirstRow | scripts/seedSeatSystem.js:12-75 | on a consistent store, up to the sample date, the seed saves the sample event and its ten row-A seats and then fails, so the regular event is never saved; after that date it saves nothing |
| Server.Database.SaveEvent | models/Event.js:40-45 | the in-place event save does exactly what `Store.SaveEvent` specifies |
| Server.Database.SaveNewEvent | models/Event.js:40-45 | the in-place save of a new event succeeds exactly when `Store.SaveNewEvent` does and then leaves its state; otherwise nothing changes |
| Server.Database.SaveBooking | models/Booking.js:24-54 | the in-place booking save succeeds exactly when `Store.SaveBooking` does and then leaves its state; otherwise nothing changes |
| Server.Database.SaveNewBooking | models/Booking.js:24-54 | the same for a new booking and `Store.SaveNewBooking` |
| Server.Database.MarkBooked | routes/seats.js:176-180 | the seat-by-seat loop leaves the seats exactly as `Store.MarkBooked` specifies, and the other collections alone |
| Server.Database.InsertSeats | routes/seats.js:88 | validate, then store documents one at a time until the first duplicate: outcome and state as `Store.InsertSeats` specifies |
| Server.Database.PlaceTickets | routes/bookings.js:26-80 | the in-place ticket handler gives the reply and state of `Bookings.PlaceTickets` |
| Server.Database.BookTickets | routes/bookings.js:10-85 | the handler as written gives the reply and state of `Bookings.BookTickets` |
| Server.Database.BookTicketsCorrected | routes/bookings.js:61-75 | the in-place handler with a zero total gives the reply and state of `Bookings.BookTicketsCorrected` |
| Server.Database.CancelBooking | routes/bookings.js:114-154 | the in-place cancel gives the reply and state of `Bookings.CancelBooking` |
| Server.Database.BookSeats | routes/seats.js:108-212 | the in-place seat booking gives the reply and state of `Seats.BookSeats`, including the seats left booked after a failed save |
| Server.Database.CreateSeats | routes/seats.js:64-105 | the in-place bulk create gives the reply and state of `Seats.CreateSeats` |
| Server.Database.CreateEvent | routes/events.js:60-89 | the in-place creation gives the reply and state of `Events.CreateEvent` |
| Server.Database.RunCreateSeats | scripts/createSeats.js:11-75 | the script against the store gives the outcome and state of `CreateSeatsScript.RunScript` |
| Server.Database.RunSeed | scripts/seedSeatSystem.js:6-88 | the seed against the store gives the outcome and state of `SeedSeatSystem.RunSeed` |

## Left out

- Schema fields: models/Event.js declares no `price`, `has_seat_selection` or `seat_layout`. The routes and scripts read and write them. The model gives events a layout and a seat-selection flag, because routes/seats.js:53-54 and 91 and scripts/createSeats.js:59-68 read and write them. The scripts' base price is a parameter (`base`) or the seed's literal 50. Under the schema as written, strict mode would drop those fields.
- Email: `sendBookingConfirmation` is a no-op. Its failure is caught and changes neither the reply nor the store; the e-mail templates and transport are I/O.
- Server wiring, database connection, authentication middleware, HTTP status codes and JSON shapes are left out. Only the outcome constructors are kept.
- Concurrency: each handler is one sequential step. Read-then-write races are not modelled, and neither is the index as a guard against them.
- Prices and totals: seat prices, booking totals and the scripts' base price are integers. The source accepts any Number (`isNumeric()`, routes/seats.js:69) and sums the prices in floating point (routes/seats.js:149), so prices 0.1 and 0.2 total 0.30000000000000004. The model's sums are exact.
- Seat counters: `total_seats` and `available_seats` are integers. POST /events passes `total_seats` from the body into `new Event` with no validator (routes/events.js:62-71), and the schema checks only `min` (models/Event.js:20-29), so the source also stores a count such as 2.5. The ticket route would then report 2.5 seats available or leave 0.5 (routes/bookings.js:41-44, 72); the model's counters cannot hold such a state.
- Floating point: multipliers are kept in tenths and `Math.round` is integer rounding. For the multipliers used (1.5, 1.2, 2.0, 1.0) and an integer base price this is exact.
- Clocks: `new Date()` is the parameter `now`, and dates are integer timestamps. The seed's date strings carry no zone, so JavaScript reads them in local time; the model fixes them as UTC (1765825200000 and 1766260800000).
- Validators: the name, e-mail and `isMongoId` checks are a boolean per request. Their normalisation (trim, lower-casing) is not modelled.
- Malformed ids: an id is a position, so a route id that is not an ObjectId cannot be written. In the source `findById` then throws a CastError. routes/bookings.js:149-151 and routes/events.js:52-54 answer 404 for it, which is the model's NotFound. The other handlers answer 500: routes/bookings.js:81-84 and routes/seats.js:57-60, 98-103, 208-211 and 236-239. The model does not have that 500 outcome.
- `populate`: a missing referenced event makes `GET /bookings` read a field of null, which the model reports as a server error. In `GET /bookings/:id/seats` a missing reference fills in as nothing.
- Mongoose `timestamps`: only `createdAt` is kept. `bookingDate` takes the same value; `updatedAt` is not modelled.
- Ties in `sort({createdAt: -1})`: MongoDB promises no order among bookings with the same timestamp. The model fixes one order and proves only that timestamps never increase along the list.
- Ties in `sort({date: 1})` (routes/events.js:10-12): events with the same date come in no promised order. Events.ListEvents fixes one, and Events.ListEventsSpec proves only that dates never decrease along the list.
- EventModel.FieldsValid: the limits on name (100), location (200) and description (500) count the characters of a Dafny string, which are Unicode scalar values. Mongoose's `maxlength` counts UTF-16 code units, so a name of 60 emoji is 120 units: the source refuses it and the model accepts it.
- SeatListing.GroupNamesItsSeats: proved only for section names without '-'. With such a name two different (section, row) pairs can share a key; SeatListing.KeysCollide shows this.
- Seats.TotalPrice: its contract states only non-negativity. That the total is the sum of the prices is its definition, and Seats.BookSeatsSuccess ties the receipt to it.
- Server.Database: the write primitives assign whole collections. Documents are values, so no aliasing between loaded documents and the store is modelled.
- routes/seed.js, scripts/seed.js, scripts/createAdmin.js, server.js and the debug and test files are not part of this model. They hold fixed data, bootstrap code and smoke tests.

## Findings

| source | as written | input that shows it | evidently intended | confidence | as-written member | corrected member |
|---|---|---|---|---|---|---|
| routes/bookings.js:62-69 | the ticket booking is built without `totalAmount`, which models/Booking.js:35-39 requires, so `booking.save()` always throws | any request that passes every guard, e.g. one ticket for an upcoming event with free seats | the booking carries a total (zero here, as the generic route prices nothing) and is stored | not executed; high | Bookings.BookTicketsNeverSucceeds | Bookings.BookTicketsCorrectedSucceeds |
| routes/seats.js:176-186 | seats are marked booked before `booking.save()`; a save that fails leaves them booked with no booking and no counter change | a request for eleven available seats of an upcoming event (the booking breaks the ten-ticket limit) | all-or-nothing: a failed booking changes no seat | not executed; high | Seats.MoreThanTenSeatsStranded | Seats.BookSeatsAtomicSpec |
| routes/seats.js:136-186 | the seat route never compares `available_seats` with the number of seats: it books them, stores the booking, then `event.save()` fails `min: 0` (models/Event.js:20-24); bulk create (routes/seats.js:64-105) does not cap the seats at total_seats | an upcoming event with total_seats 1 that got two seats through bulk create; one request books both | all-or-nothing, so a request for more seats than are available stores nothing | not executed; high | Seats.CounterShortStranded | Seats.BookSeatsAtomicCounterShort |
