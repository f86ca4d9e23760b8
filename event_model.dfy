/** The event document: its fields, the schema's field validators and the pre-save hook
    that refuses to store an event dated in the past. */
module EventModel {
  import opened Wrappers

  type EventId = nat

  const MaxNameLength := 100
  const MaxLocationLength := 200
  const MaxDescriptionLength := 500

  /** A named block of rows; the price multiplier is kept in tenths (15 stands for 1.5). */
  datatype Section = Section(name: string, rows: seq<string>, multiplierTenths: nat)

  /** `Math.round(base * multiplier)` for an integer base and a multiplier in tenths: the
      nearest integer, halves rounded up. */
  function RoundedPrice(base: int, tenths: nat): (r: int)
    ensures 10 * r - 5 <= base * tenths < 10 * r + 5
  {
    (base * tenths + 5) / 10
  }

  datatype SeatLayout = SeatLayout(rows: nat, seatsPerRow: nat, sections: seq<Section>)

  /** Dates are integer timestamps; string fields hold their trimmed values, as the schema's
      `trim` setters store them. */
  datatype Event = Event(
    name: string,
    date: int,
    location: string,
    description: string,
    totalSeats: int,
    availableSeats: int,
    hasSeatSelection: bool,
    seatLayout: Option<SeatLayout>)

  /** The schema validators: required non-empty name and location, the three length limits,
      `available_seats >= 0` and `total_seats >= 1`. Nothing ties the two counters together. */
  predicate FieldsValid(e: Event) {
    && 0 < |e.name| <= MaxNameLength
    && 0 < |e.location| <= MaxLocationLength
    && |e.description| <= MaxDescriptionLength
    && e.availableSeats >= 0
    && e.totalSeats >= 1
  }

  /** The pre-save hook: every save of an event dated before `now` fails, whatever changed. */
  predicate DateAllowed(e: Event, now: int) {
    !(e.date < now)
  }

  predicate Savable(e: Event, now: int) {
    FieldsValid(e) && DateAllowed(e, now)
  }
}
