/** The script that gives an existing event a theatre grid: eight rows A to H of ten seats,
    the two front rows VIP, the next three Premium and the rest General, priced from the
    event's base price. It inserts the seats and then records the layout on the event. */
module CreateSeatsScript {
  import opened Wrappers
  import opened Strings
  import opened EventModel
  import opened SeatModel
  import opened Store

  const RowNames: seq<string> := ["A", "B", "C", "D", "E", "F", "G", "H"]
  const SeatsPerRow: nat := 10

  /** The seat pushed for row `rowIndex` and seat `seatNum` (counted from 1). */
  function GridSeat(event: EventId, base: int, rowIndex: nat, seatNum: nat): Seat
    requires rowIndex < |RowNames|
  {
    var row := RowNames[rowIndex];
    if rowIndex < 2 then Seat(event, NumberString(seatNum), row, "VIP", RoundedPrice(base, 15), Available, Vip)
    else if rowIndex < 5 then Seat(event, NumberString(seatNum), row, "Premium", RoundedPrice(base, 12), Available, Premium)
    else Seat(event, NumberString(seatNum), row, "General", RoundedPrice(base, 10), Available, Regular)
  }

  /** The whole grid, row by row. */
  function Grid(event: EventId, base: int): (seats: seq<Seat>)
    ensures |seats| == |RowNames| * SeatsPerRow == 80
  {
    seq(|RowNames| * SeatsPerRow, i requires 0 <= i < |RowNames| * SeatsPerRow =>
      GridSeat(event, base, i / SeatsPerRow, i % SeatsPerRow + 1))
  }

  /** Row `rowIndex`, seat `seatNum` sits at position `rowIndex * 10 + seatNum - 1`, so pushing
      it extends the grid's prefix by one. */
  lemma GridPrefixGrows(event: EventId, base: int, rowIndex: nat, seatNum: nat)
    requires rowIndex < |RowNames| && 1 <= seatNum <= SeatsPerRow
    ensures var k := rowIndex * SeatsPerRow + seatNum - 1;
      Grid(event, base)[..k + 1] == Grid(event, base)[..k] + [GridSeat(event, base, rowIndex, seatNum)]
  {
    var g := Grid(event, base);
    var k := rowIndex * SeatsPerRow + seatNum - 1;
    assert k / SeatsPerRow == rowIndex && k % SeatsPerRow + 1 == seatNum;
    assert g[k] == GridSeat(event, base, rowIndex, seatNum);
    assert g[..k + 1] == g[..k] + [g[k]];
  }

  /** `rows.forEach((row, rowIndex) => { for (seatNum = 1; seatNum <= seatsPerRow; ...) ... })`. */
  method BuildGrid(event: EventId, base: int) returns (seats: seq<Seat>)
    ensures seats == Grid(event, base)
  {
    ghost var grid := Grid(event, base);
    seats := [];
    var rowIndex := 0;
    while rowIndex < |RowNames|
      invariant 0 <= rowIndex <= |RowNames|
      invariant seats == grid[..rowIndex * SeatsPerRow]
    {
      var row := RowNames[rowIndex];
      var seatNum := 1;
      while seatNum <= SeatsPerRow
        invariant 1 <= seatNum <= SeatsPerRow + 1
        invariant seats == grid[..rowIndex * SeatsPerRow + seatNum - 1]
      {
        var seatNumber := NumberString(seatNum);
        var tenths, section, kind := 10, "General", Regular;
        if rowIndex < 2 {
          tenths, section, kind := 15, "VIP", Vip;
        } else if rowIndex >= 2 && rowIndex < 5 {
          tenths, section, kind := 12, "Premium", Premium;
        }
        var seat := Seat(event, seatNumber, row, section, RoundedPrice(base, tenths), Available, kind);
        assert seat == GridSeat(event, base, rowIndex, seatNum);
        GridPrefixGrows(event, base, rowIndex, seatNum);
        seats := seats + [seat];
        seatNum := seatNum + 1;
      }
      rowIndex := rowIndex + 1;
    }
  }

  /** The `seat_layout` written to the event afterwards. */
  function Layout(): SeatLayout {
    SeatLayout(|RowNames|, SeatsPerRow, [
      Section("VIP", ["A", "B"], 15),
      Section("Premium", ["C", "D", "E"], 12),
      Section("General", ["F", "G", "H"], 10)])
  }

  /** Every generated seat belongs to the event and is available; with a non-negative base
      price every one passes the seat schema. */
  lemma GridSeatsValid(event: EventId, base: int)
    ensures forall s :: s in Grid(event, base) ==> s.event == event && s.status == Available
    ensures base >= 0 ==> forall s :: s in Grid(event, base) ==> SeatModel.Valid(s)
  {
    var g := Grid(event, base);
    forall s | s in g ensures s.event == event && s.status == Available && (base >= 0 ==> SeatModel.Valid(s)) {
      var i :| 0 <= i < |g| && g[i] == s;
      assert |NumberString(i % SeatsPerRow + 1)| >= 1;
    }
  }

  /** The recorded layout agrees with the seats: its size is the grid's, and the one section
      listing a seat's row carries that seat's section name, and its multiplier gives that
      seat's price. The type follows the row: vip for the first two, premium for the next
      three, regular for the rest. */
  lemma GridMatchesLayout(event: EventId, base: int, i: nat)
    requires i < |Grid(event, base)|
    ensures Layout().rows * Layout().seatsPerRow == |Grid(event, base)|
    ensures Grid(event, base)[i].kind == (if i / SeatsPerRow < 2 then Vip else if i / SeatsPerRow < 5 then Premium else Regular)
    ensures var s := Grid(event, base)[i];
      exists k :: 0 <= k < |Layout().sections| && s.row in Layout().sections[k].rows
        && Layout().sections[k].name == s.section
        && s.price == RoundedPrice(base, Layout().sections[k].multiplierTenths)
        && forall m :: 0 <= m < |Layout().sections| && m != k ==> s.row !in Layout().sections[m].rows
  {
    var s := Grid(event, base)[i];
    var r := i / SeatsPerRow;
    var secs := Layout().sections;
    assert s == GridSeat(event, base, r, i % SeatsPerRow + 1);
    var k := if r < 2 then 0 else if r < 5 then 1 else 2;
    assert s.row in secs[k].rows;
    assert secs[k].name == s.section;
  }

  /** Within a row the seat numbers are "1" to "10", so no two seats share row and number. */
  lemma GridRowsUnique(event: EventId, base: int)
    ensures var g := Grid(event, base);
      forall i, j :: 0 <= i < j < |g| ==> g[i].row != g[j].row || g[i].seatNumber != g[j].seatNumber
  {
    var g := Grid(event, base);
    forall i, j | 0 <= i < j < |g| ensures g[i].row != g[j].row || g[i].seatNumber != g[j].seatNumber {
      var ri, rj := i / SeatsPerRow, j / SeatsPerRow;
      assert g[i].row == RowNames[ri] && g[j].row == RowNames[rj];
      assert g[i].seatNumber == NumberString(i % SeatsPerRow + 1) && g[j].seatNumber == NumberString(j % SeatsPerRow + 1);
      if ri == rj {
        NumberStringsDiffer(i % SeatsPerRow + 1, j % SeatsPerRow + 1);
      }
    }
  }

  /** The seat number alone repeats across rows: seat 1 of row A and seat 1 of row B have the
      same index key, so the grid can never satisfy the unique index on (event, seatNumber). */
  lemma GridBreaksIndex(event: EventId, base: int)
    ensures SameIndexKey(Grid(event, base)[0], Grid(event, base)[SeatsPerRow])
    ensures !IndexUnique(Grid(event, base))
  {
  }

  datatype ScriptOutcome = EventMissing | Failed | Created(count: nat)

  /** The script against the store: a missing event stops it; `Seat.insertMany` then stores
      seats until the first duplicate and throws, in which case the event is left as it was;
      only a complete insert reaches the update of the event, whose failing save ends the
      script too. */
  function RunScript(db: Db, event: EventId, base: int, now: int): (ScriptOutcome, Db) {
    if event >= |db.events| then (EventMissing, db)
    else
      var (outcome, db1) := InsertSeats(db, Grid(event, base));
      if outcome != AllInserted then (Failed, db1)
      else
        var e := db.events[event];
        match SaveEvent(db1, event, e.(hasSeatSelection := true, seatLayout := Some(Layout())), now)
        case None => (Failed, db1)
        case Some(db2) => (Created(|Grid(event, base)|), db2)
  }

  /** The insert can store at most the first row: seat 1 of row B collides with seat 1 of row A
      once that is stored, whatever the store holds. */
  lemma InsertStopsWithinFirstRow(seats: seq<Seat>, event: EventId, base: int)
    ensures InsertedPrefix(seats, Grid(event, base)) <= SeatsPerRow
  {
    var g := Grid(event, base);
    InsertedPrefixSpec(seats, g);
    var n := InsertedPrefix(seats, g);
    if n > SeatsPerRow {
      assert (seats + g[..SeatsPerRow])[|seats|] == g[0];
      assert Collides(seats + g[..SeatsPerRow], g[SeatsPerRow]);
    }
  }

  /** So the script never completes: it never records the layout, and the event never gets seat
      selection from it. */
  lemma ScriptNeverCompletes(db: Db, event: EventId, base: int, now: int)
    ensures !RunScript(db, event, base, now).0.Created?
    ensures RunScript(db, event, base, now).1.events == db.events
  {
    if event < |db.events| {
      InsertStopsWithinFirstRow(db.seats, event, base);
    }
  }

  /** A seat of the first row collides neither with another event's seat nor with the seats
      before it in its row. */
  lemma NoCollisionInFirstRow(seats: seq<Seat>, event: EventId, base: int, n: nat)
    requires forall s :: s in seats ==> s.event != event
    requires n < SeatsPerRow
    ensures !Collides(seats + Grid(event, base)[..n], Grid(event, base)[n])
  {
    var g := Grid(event, base);
    var stored := seats + g[..n];
    forall i | 0 <= i < |stored| ensures !SameIndexKey(stored[i], g[n]) {
      if i < |seats| {
        assert stored[i] in seats;
      } else {
        var k := i - |seats|;
        assert stored[i] == g[k];
      }
    }
  }

  /** Next to seats of other events only, the first row goes in whole. */
  lemma FirstRowInserted(seats: seq<Seat>, event: EventId, base: int)
    requires forall s :: s in seats ==> s.event != event
    ensures InsertedPrefix(seats, Grid(event, base)) == SeatsPerRow
  {
    var g := Grid(event, base);
    InsertedPrefixSpec(seats, g);
    InsertStopsWithinFirstRow(seats, event, base);
    var n := InsertedPrefix(seats, g);
    if n < SeatsPerRow {
      NoCollisionInFirstRow(seats, event, base, n);
    }
  }

  /** On an event with no seats yet and a non-negative base price, the script stores exactly
      the ten seats of row A and then fails. */
  lemma ScriptStoresFirstRow(db: Db, event: EventId, base: int, now: int)
    requires event < |db.events| && base >= 0
    requires forall s :: s in db.seats ==> s.event != event
    ensures RunScript(db, event, base, now).0 == Failed
    ensures RunScript(db, event, base, now).1 == db.(seats := db.seats + Grid(event, base)[..SeatsPerRow])
  {
    var g := Grid(event, base);
    GridSeatsValid(event, base);
    assert forall k :: 0 <= k < |g| ==> SeatModel.Valid(g[k]) by {
      forall k | 0 <= k < |g| ensures SeatModel.Valid(g[k]) { assert g[k] in g; }
    }
    FirstRowInserted(db.seats, event, base);
  }
}
