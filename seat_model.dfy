/** The seat document: status and type enums with their defaults, the price bound, the
    default section, and the unique index on (event, seatNumber). */
module SeatModel {
  import opened Wrappers
  import opened Strings
  import opened EventModel

  type SeatId = nat

  datatype SeatStatus = Available | Booked | Reserved

  datatype SeatType = Regular | Vip | Premium

  const DefaultSection := "General"

  datatype Seat = Seat(
    event: EventId,
    seatNumber: string,
    row: string,
    section: string,
    price: int,
    status: SeatStatus,
    kind: SeatType)

  function StatusName(s: SeatStatus): string {
    match s
    case Available => "available"
    case Booked => "booked"
    case Reserved => "reserved"
  }

  /** The status enum check; an absent status takes the default `available`. */
  function ParseStatus(name: Option<string>): (r: Option<SeatStatus>)
    ensures name.None? ==> r == Some(Available)
    ensures name.Some? ==> (r.Some? <==> name.value in ["available", "booked", "reserved"])
    ensures name.Some? && r.Some? ==> StatusName(r.value) == name.value
  {
    match name
    case None => Some(Available)
    case Some(n) =>
      if n == "available" then Some(Available)
      else if n == "booked" then Some(Booked)
      else if n == "reserved" then Some(Reserved)
      else None
  }

  function TypeName(t: SeatType): string {
    match t
    case Regular => "regular"
    case Vip => "vip"
    case Premium => "premium"
  }

  /** The type enum check; an absent type takes the default `regular`. */
  function ParseType(name: Option<string>): (r: Option<SeatType>)
    ensures name.None? ==> r == Some(Regular)
    ensures name.Some? ==> (r.Some? <==> name.value in ["regular", "vip", "premium"])
    ensures name.Some? && r.Some? ==> TypeName(r.value) == name.value
  {
    match name
    case None => Some(Regular)
    case Some(n) =>
      if n == "regular" then Some(Regular)
      else if n == "vip" then Some(Vip)
      else if n == "premium" then Some(Premium)
      else None
  }

  /** Required seatNumber and row (non-empty once trimmed) and `price >= 0`. */
  predicate Valid(s: Seat) {
    |s.seatNumber| > 0 && |s.row| > 0 && s.price >= 0
  }

  /** Two seats that the unique index on (event, seatNumber) refuses to hold together. */
  predicate SameIndexKey(a: Seat, b: Seat) {
    a.event == b.event && a.seatNumber == b.seatNumber
  }

  predicate IndexUnique(seats: seq<Seat>) {
    forall i, j :: 0 <= i < j < |seats| ==> !SameIndexKey(seats[i], seats[j])
  }

  /** A seat as a client or script supplies it; absent optional fields are `None`. */
  datatype SeatInput = SeatInput(
    seatNumber: string,
    row: string,
    section: Option<string>,
    price: int,
    status: Option<string>,
    kind: Option<string>)

  /** Building and validating a seat document from input tagged with `event`: trimming,
      the defaults, the enums and the bounds. `None` is a validation failure. */
  function FromInput(input: SeatInput, event: EventId): Option<Seat> {
    var status := ParseStatus(input.status);
    var kind := ParseType(input.kind);
    var section := if input.section.None? then DefaultSection else Trim(input.section.value);
    var s := Seat(event, Trim(input.seatNumber), Trim(input.row), section, input.price,
                  if status.Some? then status.value else Available, if kind.Some? then kind.value else Regular);
    if Valid(s) && status.Some? && kind.Some? then Some(s) else None
  }

  /** The document exists exactly when the trimmed seatNumber and row are non-empty, the price
      is not negative and both enums accept; it is then valid, tagged with the event, and takes
      the defaults for an absent section, status or type. */
  lemma FromInputSpec(input: SeatInput, event: EventId)
    ensures var r := FromInput(input, event);
      && (r.Some? <==>
            && |Trim(input.seatNumber)| > 0 && |Trim(input.row)| > 0 && input.price >= 0
            && ParseStatus(input.status).Some? && ParseType(input.kind).Some?)
      && (r.Some? ==> Valid(r.value) && r.value.event == event)
      && (r.Some? ==> r.value.section == (if input.section.None? then DefaultSection else Trim(input.section.value)))
      && (r.Some? && input.status.None? ==> r.value.status == Available)
      && (r.Some? && input.kind.None? ==> r.value.kind == Regular)
  {
  }

  function ToInput(s: Seat): SeatInput {
    SeatInput(s.seatNumber, s.row, Some(s.section), s.price, Some(StatusName(s.status)), Some(TypeName(s.kind)))
  }

  predicate Trimmed(s: Seat) {
    Trim(s.seatNumber) == s.seatNumber && Trim(s.row) == s.row && Trim(s.section) == s.section
  }

  /** Writing a stored seat back out as input and validating it again yields the same seat. */
  lemma FromInputToInput(s: Seat)
    requires Valid(s) && Trimmed(s)
    ensures FromInput(ToInput(s), s.event) == Some(s)
  {
    match s.status {
      case Available =>
      case Booked =>
      case Reserved =>
    }
    match s.kind {
      case Regular =>
      case Vip =>
      case Premium =>
    }
  }
}
