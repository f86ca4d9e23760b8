/** The seed script for the seat system: it saves a sample concert with an 8 by 10 layout of
    three sections, builds one seat per row letter and seat number from that layout, inserts
    the seats, and then saves a second event without seat selection. */
module SeedSeatSystem {
  import opened Wrappers
  import opened Strings
  import opened EventModel
  import opened SeatModel
  import opened Store

  const Alphabet: string := "ABCDEFGHIJKLMNOPQRSTUVWXYZ"
  const RowCount: nat := 8
  const SeatsPerRow: nat := 10

  /** The sample event's base price. */
  const SamplePrice: int := 50

  /** 2025-12-15T19:00:00 and 2025-12-20T20:00:00, in milliseconds, read as UTC. */
  const SampleDate: int := 1765825200000
  const RegularDate: int := 1766260800000

  function SampleLayout(): SeatLayout {
    SeatLayout(RowCount, SeatsPerRow, [
      Section("VIP", ["A", "B"], 20),
      Section("Premium", ["C", "D", "E"], 15),
      Section("General", ["F", "G", "H"], 10)])
  }

  function SampleEvent(): Event {
    Event("Concert Experience 2025", SampleDate, "Grand Theater Arena",
          "An amazing concert experience with interactive seat selection",
          80, 80, true, Some(SampleLayout()))
  }

  function RegularEvent(): Event {
    Event("Jazz Night Special", RegularDate, "Jazz Club Downtown",
          "Classic jazz evening with traditional ticket booking",
          100, 100, false, None)
  }

  /** `sections.find(s => s.rows.includes(row))`: the first section listing the row. */
  function FindSection(sections: seq<Section>, row: string): (r: Option<Section>)
    ensures r.None? <==> forall k :: 0 <= k < |sections| ==> row !in sections[k].rows
    ensures r.Some? ==> exists k :: (0 <= k < |sections| && sections[k] == r.value && row in r.value.rows
      && forall m :: 0 <= m < k ==> row !in sections[m].rows)
  {
    if sections == [] then None
    else if row in sections[0].rows then Some(sections[0])
    else
      var r := FindSection(sections[1..], row);
      assert forall k :: 0 < k < |sections| ==> sections[k] == sections[1..][k - 1];
      r
  }

  /** `section?.price_multiplier || 1`: a missing section, or a zero multiplier, gives 1. */
  function Multiplier(section: Option<Section>): nat {
    if section.None? || section.value.multiplierTenths == 0 then 10 else section.value.multiplierTenths
  }

  /** The type chosen from the section's name. */
  function TypeFor(section: Option<Section>): SeatType {
    if section.Some? && section.value.name == "VIP" then Vip
    else if section.Some? && section.value.name == "Premium" then Premium
    else Regular
  }

  /** `section?.name || 'General'`. */
  function SectionName(section: Option<Section>): string {
    if section.None? || section.value.name == "" then DefaultSection else section.value.name
  }

  /** The seat pushed for row number `i` and seat number `j`. */
  function SeedSeat(event: EventId, sections: seq<Section>, base: int, i: nat, j: nat): Seat
    requires i < |Alphabet|
  {
    var row := [Alphabet[i]];
    var section := FindSection(sections, row);
    Seat(event, NumberString(j), row, SectionName(section), RoundedPrice(base, Multiplier(section)),
         Available, TypeFor(section))
  }

  function SeedGrid(event: EventId, sections: seq<Section>, base: int): (seats: seq<Seat>)
    ensures |seats| == RowCount * SeatsPerRow
  {
    seq(RowCount * SeatsPerRow, k requires 0 <= k < RowCount * SeatsPerRow =>
      SeedSeat(event, sections, base, k / SeatsPerRow, k % SeatsPerRow + 1))
  }

  /** Row `i`, seat `j` sits at position `i * 10 + j - 1`, so pushing it extends the grid's
      prefix by one. */
  lemma SeedPrefixGrows(event: EventId, sections: seq<Section>, base: int, i: nat, j: nat)
    requires i < RowCount && 1 <= j <= SeatsPerRow
    ensures var k := i * SeatsPerRow + j - 1;
      SeedGrid(event, sections, base)[..k + 1] == SeedGrid(event, sections, base)[..k] + [SeedSeat(event, sections, base, i, j)]
  {
    var g := SeedGrid(event, sections, base);
    var k := i * SeatsPerRow + j - 1;
    assert k / SeatsPerRow == i && k % SeatsPerRow + 1 == j;
    assert g[k] == SeedSeat(event, sections, base, i, j);
    assert g[..k + 1] == g[..k] + [g[k]];
  }

  /** `for (i = 0; i < 8; i++) { ...; for (j = 1; j <= 10; j++) seats.push(...) }`. */
  method BuildSeedSeats(event: EventId, sections: seq<Section>, base: int) returns (seats: seq<Seat>)
    ensures seats == SeedGrid(event, sections, base)
  {
    ghost var grid := SeedGrid(event, sections, base);
    seats := [];
    for i := 0 to RowCount
      invariant seats == grid[..i * SeatsPerRow]
    {
      var row := [Alphabet[i]];
      var section := FindSection(sections, row);
      for j := 1 to SeatsPerRow + 1
        invariant seats == grid[..i * SeatsPerRow + j - 1]
      {
        var price := RoundedPrice(base, Multiplier(section));
        var kind := TypeFor(section);
        SeedPrefixGrows(event, sections, base, i, j);
        seats := seats + [Seat(event, NumberString(j), row, SectionName(section), price, Available, kind)];
      }
    }
  }

  /** The sample's sections split the rows A to H: each row is listed by exactly one section,
      the one `find` returns. */
  lemma SampleSectionsPartitionRows(i: nat)
    requires i < RowCount
    ensures var secs := SampleLayout().sections;
      var row := [Alphabet[i]];
      && FindSection(secs, row).Some?
      && exists k :: 0 <= k < |secs| && row in secs[k].rows
           && FindSection(secs, row) == Some(secs[k])
           && forall m :: 0 <= m < |secs| && m != k ==> row !in secs[m].rows
  {
    var secs := SampleLayout().sections;
    var row := [Alphabet[i]];
    var k := if i < 2 then 0 else if i < 5 then 1 else 2;
    RowInOneSection(i, k);
    assert row in secs[k].rows;
  }

  /** Row `i` is listed by section `k` alone, and `find` stops there. */
  lemma RowInOneSection(i: nat, k: nat)
    requires i < RowCount && k == (if i < 2 then 0 else if i < 5 then 1 else 2)
    ensures var secs := SampleLayout().sections;
      var row := [Alphabet[i]];
      && row in secs[k].rows
      && (forall m :: 0 <= m < |secs| && m != k ==> row !in secs[m].rows)
      && FindSection(secs, row) == Some(secs[k])
  {
    var secs := SampleLayout().sections;
    var row := [Alphabet[i]];
    assert row == ["ABCDEFGH"[i]];
    if i < 2 {
      assert row == ["AB"[i]];
    } else if i < 5 {
      assert row == ["CDE"[i - 2]];
    } else {
      assert row == ["FGH"[i - 5]];
    }
  }

  /** Mapped through the sample layout, rows A and B are VIP at 100, rows C to E Premium at 75
      and rows F to H General at 50; every seat is available and belongs to the event. */
  lemma SampleSeats(event: EventId, k: nat)
    requires k < RowCount * SeatsPerRow
    ensures var s := SeedGrid(event, SampleLayout().sections, SamplePrice)[k];
      var r := k / SeatsPerRow;
      && s.event == event && s.status == Available
      && s.row == [Alphabet[r]] && s.seatNumber == NumberString(k % SeatsPerRow + 1)
      && (r < 2 ==> s.section == "VIP" && s.kind == Vip && s.price == 100)
      && (2 <= r < 5 ==> s.section == "Premium" && s.kind == Premium && s.price == 75)
      && (5 <= r ==> s.section == "General" && s.kind == Regular && s.price == 50)
  {
    var r := k / SeatsPerRow;
    SampleSectionsPartitionRows(r);
  }

  /** The seat count matches the event: the grid has `total_seats` seats and the layout's
      rows times seats per row is `total_seats`. */
  lemma SampleCounts(event: EventId)
    ensures |SeedGrid(event, SampleLayout().sections, SamplePrice)| == SampleEvent().totalSeats
    ensures SampleLayout().rows * SampleLayout().seatsPerRow == SampleEvent().totalSeats
    ensures SampleEvent().availableSeats == SampleEvent().totalSeats
  {
  }

  datatype SeedOutcome = Failed | Seeded

  /** The script against the store: save the sample event (which takes the next id), insert its
      seats, then save the regular event; the first failure ends the script. */
  function RunSeed(db: Db, now: int): (SeedOutcome, Db) {
    match SaveNewEvent(db, SampleEvent(), now)
    case None => (Failed, db)
    case Some(db1) =>
      var (outcome, db2) := InsertSeats(db1, SeedGrid(|db.events|, SampleLayout().sections, SamplePrice));
      if outcome != AllInserted then (Failed, db2)
      else
        match SaveNewEvent(db2, RegularEvent(), now)
        case None => (Failed, db2)
        case Some(db3) => (Seeded, db3)
  }

  /** The seat numbers restart in every row, so the unique index on (event, seatNumber) lets
      exactly row A in: on a consistent store, before the sample date, the seed saves the
      sample event and its ten row-A seats and then fails, so the regular event is never
      saved. After the sample date it saves nothing. */
  lemma SeedStopsAfterFirstRow(db: Db, now: int)
    requires Consistent(db)
    ensures now <= SampleDate ==>
      var id := |db.events|;
      && RunSeed(db, now).0 == Failed
      && RunSeed(db, now).1 == Db(db.events + [SampleEvent()],
                                  db.seats + SeedGrid(id, SampleLayout().sections, SamplePrice)[..SeatsPerRow],
                                  db.bookings)
    ensures now > SampleDate ==> RunSeed(db, now) == (Failed, db)
  {
    if now <= SampleDate {
      var id := |db.events|;
      SampleGridValid(id);
      forall s | s in db.seats ensures s.event != id { }
      SeedInsertsFirstRow(db.seats, id);
    }
  }

  /** Every sample seat passes the seat schema. */
  lemma SampleGridValid(event: EventId)
    ensures var g := SeedGrid(event, SampleLayout().sections, SamplePrice);
      forall k :: 0 <= k < |g| ==> SeatModel.Valid(g[k])
  {
    var g := SeedGrid(event, SampleLayout().sections, SamplePrice);
    forall k | 0 <= k < |g| ensures SeatModel.Valid(g[k]) {
      SampleSeats(event, k);
    }
  }

  lemma SeedInsertsFirstRow(seats: seq<Seat>, event: EventId)
    requires forall s :: s in seats ==> s.event != event
    ensures InsertedPrefix(seats, SeedGrid(event, SampleLayout().sections, SamplePrice)) == SeatsPerRow
  {
    var g := SeedGrid(event, SampleLayout().sections, SamplePrice);
    InsertedPrefixSpec(seats, g);
    var n := InsertedPrefix(seats, g);
    if n > SeatsPerRow {
      assert (seats + g[..SeatsPerRow])[|seats|] == g[0];
      assert Collides(seats + g[..SeatsPerRow], g[SeatsPerRow]);
    } else if n < SeatsPerRow {
      SeedRowANoCollision(seats, event, n);
    }
  }

  lemma SeedRowANoCollision(seats: seq<Seat>, event: EventId, n: nat)
    requires forall s :: s in seats ==> s.event != event
    requires n < SeatsPerRow
    ensures var g := SeedGrid(event, SampleLayout().sections, SamplePrice);
      !Collides(seats + g[..n], g[n])
  {
    var g := SeedGrid(event, SampleLayout().sections, SamplePrice);
    var stored := seats + g[..n];
    forall i | 0 <= i < |stored| ensures !SameIndexKey(stored[i], g[n]) {
      if i < |seats| {
        assert stored[i] in seats;
      } else {
        assert stored[i] == g[i - |seats|];
      }
    }
  }
}
