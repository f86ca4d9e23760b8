/** `GET /events/:id/seats`: the event's seats, optionally narrowed to one section and one
    row, sorted by (row, seatNumber) and grouped by the key `section-row` in the order the
    keys first appear. Seats of every status are listed. */
module SeatListing {
  import opened Wrappers
  import opened Strings
  import opened EventModel
  import opened SeatModel
  import opened Store
  import Sorting
  import Query

  /** The query string; a parameter narrows the listing only when it is present and
      non-empty, as an empty string is falsy. */
  datatype SeatQuery = SeatQuery(section: Option<string>, row: Option<string>)

  predicate Given(p: Option<string>) {
    p.Some? && |p.value| > 0
  }

  /** The filter `{event, section?, row?}`. */
  function Selected(event: EventId, q: SeatQuery): (SeatId, Seat) -> bool {
    (id: SeatId, s: Seat) =>
      && s.event == event
      && (!Given(q.section) || s.section == q.section.value)
      && (!Given(q.row) || s.row == q.row.value)
  }

  /** The projection `seatNumber row section status price type`, with the id. */
  datatype SeatView = SeatView(
    id: SeatId,
    seatNumber: string,
    row: string,
    section: string,
    status: SeatStatus,
    price: int,
    kind: SeatType)

  function ViewOf(id: SeatId, s: Seat): SeatView {
    SeatView(id, s.seatNumber, s.row, s.section, s.status, s.price, s.kind)
  }

  predicate LexLt(a: string, b: string) {
    LexLe(a, b) && a != b
  }

  /** `sort({row: 1, seatNumber: 1})`. */
  function RowSeatLe(): (SeatView, SeatView) -> bool {
    (a: SeatView, b: SeatView) =>
      LexLt(a.row, b.row) || (a.row == b.row && LexLe(a.seatNumber, b.seatNumber))
  }

  lemma RowSeatLeTotalPreorder()
    ensures Sorting.TotalPreorder(RowSeatLe())
  {
    var le := RowSeatLe();
    forall a: SeatView, b: SeatView ensures le(a, b) || le(b, a) {
      LexLeTotal(a.row, b.row);
      LexLeTotal(a.seatNumber, b.seatNumber);
    }
    forall a: SeatView, b: SeatView, c: SeatView | le(a, b) && le(b, c) ensures le(a, c) {
      if a.row == b.row && b.row == c.row {
        LexLeTransitive(a.seatNumber, b.seatNumber, c.seatNumber);
      } else {
        LexLeReflexive(a.row);
        LexLeReflexive(b.row);
        LexLeTransitive(a.row, b.row, c.row);
        if a.row == c.row {
          LexLeAntisymmetric(a.row, b.row);
        }
      }
    }
  }

  /** The selected seats in natural order, projected. */
  function SelectedViews(db: Db, event: EventId, q: SeatQuery): seq<SeatView> {
    var ids := Query.Matching(db.seats, Selected(event, q));
    seq(|ids|, i requires 0 <= i < |ids| => ViewOf(ids[i], db.seats[ids[i]]))
  }

  /** The cursor the handler reduces over. */
  function ListedViews(db: Db, event: EventId, q: SeatQuery): seq<SeatView> {
    Sorting.InsertionSort(SelectedViews(db, event, q), RowSeatLe())
  }

  /** Before sorting: each selected seat once, and nothing else. */
  lemma SelectedViewsSpec(db: Db, event: EventId, q: SeatQuery)
    ensures Sorting.Distinct(SelectedViews(db, event, q))
    ensures forall id :: 0 <= id < |db.seats| ==>
      (ViewOf(id, db.seats[id]) in SelectedViews(db, event, q) <==> Selected(event, q)(id, db.seats[id]))
    ensures forall v :: v in SelectedViews(db, event, q) ==> v.id < |db.seats| && v == ViewOf(v.id, db.seats[v.id])
  {
    var ids := Query.Matching(db.seats, Selected(event, q));
    var vs := SelectedViews(db, event, q);
    forall i, j | 0 <= i < j < |vs| ensures vs[i] != vs[j] {
      assert vs[i].id == ids[i] && vs[j].id == ids[j];
    }
    forall id | 0 <= id < |db.seats| && Selected(event, q)(id, db.seats[id])
      ensures ViewOf(id, db.seats[id]) in vs
    {
      var i :| 0 <= i < |ids| && ids[i] == id;
      assert vs[i] == ViewOf(id, db.seats[id]);
    }
    forall v | v in vs ensures v.id < |db.seats| && v == ViewOf(v.id, db.seats[v.id]) && Selected(event, q)(v.id, db.seats[v.id]) {
      var i :| 0 <= i < |vs| && vs[i] == v;
      assert v.id == ids[i];
    }
  }

  /** The listing is in (row, seatNumber) order and holds exactly the seats of the event that
      pass the filters, each once. */
  lemma ListedViewsSpec(db: Db, event: EventId, q: SeatQuery)
    ensures Sorting.Sorted(ListedViews(db, event, q), RowSeatLe())
    ensures Sorting.Distinct(ListedViews(db, event, q))
    ensures forall id :: 0 <= id < |db.seats| ==>
      (ViewOf(id, db.seats[id]) in ListedViews(db, event, q) <==> Selected(event, q)(id, db.seats[id]))
    ensures forall v :: v in ListedViews(db, event, q) ==> v.id < |db.seats| && v == ViewOf(v.id, db.seats[v.id])
  {
    var vs := SelectedViews(db, event, q);
    var ls := ListedViews(db, event, q);
    SelectedViewsSpec(db, event, q);
    RowSeatLeTotalPreorder();
    Sorting.InsertionSortSorted<SeatView>(vs, RowSeatLe());
    Sorting.InsertionSortDistinct<SeatView>(vs, RowSeatLe());
    forall v ensures v in ls <==> v in vs {
      Sorting.InsertionSortMembers<SeatView>(vs, RowSeatLe(), v);
    }
  }

  /** One seat inside a group: `{id, seatNumber, status, price, type}`. */
  datatype GroupEntry = GroupEntry(id: SeatId, seatNumber: string, status: SeatStatus, price: int, kind: SeatType)

  datatype SeatGroup = SeatGroup(section: string, row: string, seats: seq<GroupEntry>)

  function EntryOf(v: SeatView): GroupEntry {
    GroupEntry(v.id, v.seatNumber, v.status, v.price, v.kind)
  }

  function Entries(vs: seq<SeatView>): (es: seq<GroupEntry>)
    ensures |es| == |vs| && forall i :: 0 <= i < |vs| ==> es[i] == EntryOf(vs[i])
  {
    seq(|vs|, i requires 0 <= i < |vs| => EntryOf(vs[i]))
  }

  /** The template key `${section}-${row}`. */
  function Key(section: string, row: string): string {
    section + "-" + row
  }

  function ViewKey(v: SeatView): string {
    Key(v.section, v.row)
  }

  /** The distinct keys of `vs` in order of first appearance (the order of the accumulator
      object's own properties: a key always holds `-`, so it is never an integer index). */
  function KeysOf(vs: seq<SeatView>): seq<string> {
    if vs == [] then []
    else
      var ks := KeysOf(vs[..|vs| - 1]);
      var k := ViewKey(vs[|vs| - 1]);
      if k in ks then ks else ks + [k]
  }

  /** The keys are pairwise different and are exactly the keys of the listed seats. */
  lemma {:induction false} KeysOfSpec(vs: seq<SeatView>)
    ensures Sorting.Distinct(KeysOf(vs))
    ensures forall k :: k in KeysOf(vs) <==> exists i :: 0 <= i < |vs| && ViewKey(vs[i]) == k
  {
    if vs != [] {
      var p := vs[..|vs| - 1];
      KeysOfSpec(p);
      forall k ensures k in KeysOf(vs) <==> exists i :: 0 <= i < |vs| && ViewKey(vs[i]) == k {
        if exists i :: 0 <= i < |p| && ViewKey(p[i]) == k {
          var i :| 0 <= i < |p| && ViewKey(p[i]) == k;
          assert vs[i] == p[i];
        }
        if exists i :: 0 <= i < |vs| && ViewKey(vs[i]) == k {
          var i :| 0 <= i < |vs| && ViewKey(vs[i]) == k;
          if i < |p| { assert p[i] == vs[i]; }
        }
      }
    }
  }

  /** The views with key `k`, in order. */
  function ViewsWithKey(vs: seq<SeatView>, k: string): seq<SeatView> {
    if vs == [] then []
    else
      var v := vs[|vs| - 1];
      ViewsWithKey(vs[..|vs| - 1], k) + (if ViewKey(v) == k then [v] else [])
  }

  /** A seat is among the views with key `k` exactly when it is listed and has that key. */
  lemma {:induction false} ViewsWithKeyMembers(vs: seq<SeatView>, k: string, v: SeatView)
    ensures v in ViewsWithKey(vs, k) <==> v in vs && ViewKey(v) == k
  {
    if vs != [] {
      var p := vs[..|vs| - 1];
      assert vs == p + [vs[|vs| - 1]];
      ViewsWithKeyMembers(p, k, v);
    }
  }

  lemma {:induction false} ViewsWithNewKey(vs: seq<SeatView>, k: string)
    requires k !in KeysOf(vs)
    ensures ViewsWithKey(vs, k) == []
  {
    if vs != [] {
      ViewsWithNewKey(vs[..|vs| - 1], k);
    }
  }

  /** The first view with key `k`, whose section and row name the group. */
  function FirstWithKey(vs: seq<SeatView>, k: string): (v: SeatView)
    requires k in KeysOf(vs)
    ensures v in vs && ViewKey(v) == k
  {
    var p := vs[..|vs| - 1];
    var last := vs[|vs| - 1];
    assert vs == p + [last];
    if k in KeysOf(p) then FirstWithKey(p, k) else last
  }

  /** Declaratively, the grouped result: one group per distinct key in first-appearance order,
      named after the key's first seat and holding the entries of all seats with that key in
      their listing order. */
  function GroupsOf(vs: seq<SeatView>): (gs: seq<SeatGroup>)
    ensures |gs| == |KeysOf(vs)|
  {
    var ks := KeysOf(vs);
    seq(|ks|, g requires 0 <= g < |ks| =>
      var first := FirstWithKey(vs, ks[g]);
      SeatGroup(first.section, first.row, Entries(ViewsWithKey(vs, ks[g]))))
  }

  lemma GroupAt(vs: seq<SeatView>, g: nat)
    requires g < |KeysOf(vs)|
    ensures var k := KeysOf(vs)[g];
      GroupsOf(vs)[g] == SeatGroup(FirstWithKey(vs, k).section, FirstWithKey(vs, k).row, Entries(ViewsWithKey(vs, k)))
  {
  }

  /** Appending a seat changes no earlier key's first seat and adds it to its own key's views. */
  lemma SnocViews(vs: seq<SeatView>, v: SeatView, k: string)
    ensures k in KeysOf(vs) ==> k in KeysOf(vs + [v]) && FirstWithKey(vs + [v], k) == FirstWithKey(vs, k)
    ensures ViewsWithKey(vs + [v], k) == ViewsWithKey(vs, k) + (if ViewKey(v) == k then [v] else [])
  {
    var w := vs + [v];
    assert w[..|w| - 1] == vs;
  }

  /** Appending a seat whose key is already at position `p` extends group `p` alone. */
  lemma GroupsOfSnocOld(vs: seq<SeatView>, v: SeatView, p: nat)
    requires p < |KeysOf(vs)| && KeysOf(vs)[p] == ViewKey(v)
    ensures KeysOf(vs + [v]) == KeysOf(vs)
    ensures GroupsOf(vs + [v]) == GroupsOf(vs)[p := GroupsOf(vs)[p].(seats := GroupsOf(vs)[p].seats + [EntryOf(v)])]
  {
    var w := vs + [v];
    assert w[..|w| - 1] == vs;
    var ks := KeysOf(vs);
    assert KeysOf(w) == ks;
    KeysOfDistinct(vs);
    var gs := GroupsOf(vs);
    var expected := gs[p := gs[p].(seats := gs[p].seats + [EntryOf(v)])];
    forall g | 0 <= g < |ks| ensures GroupsOf(w)[g] == expected[g] {
      SnocOldGroupAt(vs, v, p, g);
    }
  }

  lemma SnocOldGroupAt(vs: seq<SeatView>, v: SeatView, p: nat, g: nat)
    requires p < |KeysOf(vs)| && KeysOf(vs)[p] == ViewKey(v) && g < |KeysOf(vs)|
    requires Sorting.Distinct(KeysOf(vs)) && KeysOf(vs + [v]) == KeysOf(vs)
    ensures g == p ==> GroupsOf(vs + [v])[g] == GroupsOf(vs)[g].(seats := GroupsOf(vs)[g].seats + [EntryOf(v)])
    ensures g != p ==> GroupsOf(vs + [v])[g] == GroupsOf(vs)[g]
  {
    if g == p {
      SnocGrowsGroup(vs, v, g);
    } else {
      assert KeysOf(vs)[g] != ViewKey(v);
      SnocKeepsGroup(vs, v, g);
    }
  }

  /** The group of the appended seat's key gains its entry. */
  lemma SnocGrowsGroup(vs: seq<SeatView>, v: SeatView, g: nat)
    requires g < |KeysOf(vs)| && KeysOf(vs)[g] == ViewKey(v) && KeysOf(vs + [v]) == KeysOf(vs)
    ensures GroupsOf(vs + [v])[g] == GroupsOf(vs)[g].(seats := GroupsOf(vs)[g].seats + [EntryOf(v)])
  {
    var k := KeysOf(vs)[g];
    GroupAt(vs, g);
    GroupAt(vs + [v], g);
    SnocViews(vs, v, k);
    assert Entries(ViewsWithKey(vs, k) + [v]) == Entries(ViewsWithKey(vs, k)) + [EntryOf(v)];
  }

  /** Every other group stays as it was. */
  lemma SnocKeepsGroup(vs: seq<SeatView>, v: SeatView, g: nat)
    requires g < |KeysOf(vs)| && KeysOf(vs)[g] != ViewKey(v) && KeysOf(vs + [v]) == KeysOf(vs)
    ensures GroupsOf(vs + [v])[g] == GroupsOf(vs)[g]
  {
    var k := KeysOf(vs)[g];
    GroupAt(vs, g);
    GroupAt(vs + [v], g);
    SnocViews(vs, v, k);
  }

  /** No key is listed twice. */
  lemma {:induction false} KeysOfDistinct(vs: seq<SeatView>)
    ensures Sorting.Distinct(KeysOf(vs))
  {
    if vs != [] {
      var p := vs[..|vs| - 1];
      KeysOfDistinct(p);
      var ks := KeysOf(p);
      var k := ViewKey(vs[|vs| - 1]);
      if k !in ks {
        forall i, j | 0 <= i < j < |ks + [k]| ensures (ks + [k])[i] != (ks + [k])[j] {
          if j == |ks| { assert (ks + [k])[i] == ks[i]; }
        }
      }
    }
  }

  /** Appending a seat with a new key opens one group for it at the end. */
  lemma GroupsOfSnocNew(vs: seq<SeatView>, v: SeatView)
    requires ViewKey(v) !in KeysOf(vs)
    ensures KeysOf(vs + [v]) == KeysOf(vs) + [ViewKey(v)]
    ensures GroupsOf(vs + [v]) == GroupsOf(vs) + [SeatGroup(v.section, v.row, [EntryOf(v)])]
  {
    var w := vs + [v];
    assert w[..|w| - 1] == vs;
    var ks := KeysOf(vs);
    assert KeysOf(w) == ks + [ViewKey(v)];
    var expected := GroupsOf(vs) + [SeatGroup(v.section, v.row, [EntryOf(v)])];
    forall g | 0 <= g < |ks| + 1 ensures GroupsOf(w)[g] == expected[g] {
      if g < |ks| {
        SnocNewKeepsGroup(vs, v, g);
      } else {
        SnocNewOpensGroup(vs, v);
      }
    }
  }

  /** A seat with a new key leaves every earlier group as it was. */
  lemma SnocNewKeepsGroup(vs: seq<SeatView>, v: SeatView, g: nat)
    requires g < |KeysOf(vs)| && KeysOf(vs + [v]) == KeysOf(vs) + [ViewKey(v)]
    ensures GroupsOf(vs + [v])[g] == GroupsOf(vs)[g]
  {
    var k := KeysOf(vs)[g];
    assert KeysOf(vs + [v])[g] == k;
    assert k != ViewKey(v);
    GroupAt(vs, g);
    GroupAt(vs + [v], g);
    SnocViews(vs, v, k);
  }

  /** A seat with a new key is the only member of the group opened for it. */
  lemma SnocNewOpensGroup(vs: seq<SeatView>, v: SeatView)
    requires ViewKey(v) !in KeysOf(vs) && KeysOf(vs + [v]) == KeysOf(vs) + [ViewKey(v)]
    ensures GroupsOf(vs + [v])[|KeysOf(vs)|] == SeatGroup(v.section, v.row, [EntryOf(v)])
  {
    var w := vs + [v];
    var k := ViewKey(v);
    assert w[..|w| - 1] == vs;
    GroupAt(w, |KeysOf(vs)|);
    SnocViews(vs, v, k);
    ViewsWithNewKey(vs, k);
    assert FirstWithKey(w, k) == v;
  }

  /** The accumulator's map sends each key seen so far to the position of its group. */
  ghost predicate IndexesKeys(index: map<string, nat>, ks: seq<string>) {
    && (forall k :: k in index <==> k in ks)
    && (forall k :: k in index ==> index[k] < |ks| && ks[index[k]] == k)
  }

  lemma IndexesKeysAppend(index: map<string, nat>, ks: seq<string>, key: string)
    requires IndexesKeys(index, ks) && key !in ks
    ensures IndexesKeys(index[key := |ks|], ks + [key])
  {
    var ks' := ks + [key];
    forall k | k in index ensures ks'[index[k]] == k {
      assert ks'[index[k]] == ks[index[k]];
    }
  }

  /** One step of the reduce on a key already seen. */
  lemma GroupStepOld(vs: seq<SeatView>, i: nat, index: map<string, nat>)
    requires i < |vs| && IndexesKeys(index, KeysOf(vs[..i])) && ViewKey(vs[i]) in index
    ensures var p := index[ViewKey(vs[i])];
      && p < |GroupsOf(vs[..i])|
      && KeysOf(vs[..i + 1]) == KeysOf(vs[..i])
      && GroupsOf(vs[..i + 1]) == GroupsOf(vs[..i])[p := GroupsOf(vs[..i])[p].(seats := GroupsOf(vs[..i])[p].seats + [EntryOf(vs[i])])]
  {
    assert vs[..i + 1] == vs[..i] + [vs[i]];
    GroupsOfSnocOld(vs[..i], vs[i], index[ViewKey(vs[i])]);
  }

  /** One step of the reduce on a new key. */
  lemma GroupStepNew(vs: seq<SeatView>, i: nat, index: map<string, nat>)
    requires i < |vs| && IndexesKeys(index, KeysOf(vs[..i])) && ViewKey(vs[i]) !in index
    ensures IndexesKeys(index[ViewKey(vs[i]) := |GroupsOf(vs[..i])|], KeysOf(vs[..i + 1]))
    ensures GroupsOf(vs[..i + 1]) == GroupsOf(vs[..i]) + [SeatGroup(vs[i].section, vs[i].row, [EntryOf(vs[i])])]
  {
    assert vs[..i + 1] == vs[..i] + [vs[i]];
    GroupsOfSnocNew(vs[..i], vs[i]);
    IndexesKeysAppend(index, KeysOf(vs[..i]), ViewKey(vs[i]));
  }

  /** The handler's reduce: an accumulator object from key to group, plus the groups in the
      order their keys were added (`Object.values`). */
  method GroupSeats(vs: seq<SeatView>) returns (groups: seq<SeatGroup>)
    ensures groups == GroupsOf(vs)
  {
    var index: map<string, nat> := map[];
    groups := [];
    var i := 0;
    while i < |vs|
      invariant 0 <= i <= |vs|
      invariant groups == GroupsOf(vs[..i])
      invariant IndexesKeys(index, KeysOf(vs[..i]))
    {
      var v := vs[i];
      var key := Key(v.section, v.row);
      if key in index {
        var p := index[key];
        GroupStepOld(vs, i, index);
        groups := groups[p := groups[p].(seats := groups[p].seats + [EntryOf(v)])];
      } else {
        GroupStepNew(vs, i, index);
        index := index[key := |groups|];
        groups := groups + [SeatGroup(v.section, v.row, [EntryOf(v)])];
      }
      i := i + 1;
    }
    assert vs[..i] == vs;
  }

  /** Every listed seat lands in exactly one group, the group whose key is the seat's. */
  lemma GroupsPartition(vs: seq<SeatView>, v: SeatView)
    requires v in vs
    ensures exists g :: 0 <= g < |GroupsOf(vs)| && EntryOf(v) in GroupsOf(vs)[g].seats && KeysOf(vs)[g] == ViewKey(v)
    ensures forall g, h :: 0 <= g < h < |GroupsOf(vs)| ==> !(KeysOf(vs)[g] == ViewKey(v) && KeysOf(vs)[h] == ViewKey(v))
  {
    var ks := KeysOf(vs);
    KeysOfSpec(vs);
    var i :| 0 <= i < |vs| && vs[i] == v;
    assert ViewKey(v) in ks;
    var g :| 0 <= g < |ks| && ks[g] == ViewKey(v);
    GroupAt(vs, g);
    ViewsWithKeyMembers(vs, ks[g], v);
    var es := Entries(ViewsWithKey(vs, ks[g]));
    var j :| 0 <= j < |ViewsWithKey(vs, ks[g])| && ViewsWithKey(vs, ks[g])[j] == v;
    assert es[j] == EntryOf(v);
  }

  /** A group holds exactly the entries of the listed seats with its key, in listing order,
      so within a group the (row, seatNumber) order of the cursor is kept. */
  lemma GroupContents(vs: seq<SeatView>, g: nat)
    requires g < |GroupsOf(vs)|
    ensures GroupsOf(vs)[g].seats == Entries(ViewsWithKey(vs, KeysOf(vs)[g]))
    ensures Key(GroupsOf(vs)[g].section, GroupsOf(vs)[g].row) == KeysOf(vs)[g]
    ensures Sorting.Sorted(vs, RowSeatLe()) ==> Sorting.Sorted(ViewsWithKey(vs, KeysOf(vs)[g]), RowSeatLe())
  {
    GroupAt(vs, g);
    if Sorting.Sorted(vs, RowSeatLe()) {
      FilterKeepsOrder(vs, KeysOf(vs)[g]);
    }
  }

  lemma {:induction false} FilterKeepsOrder(vs: seq<SeatView>, k: string)
    requires Sorting.Sorted(vs, RowSeatLe())
    ensures Sorting.Sorted(ViewsWithKey(vs, k), RowSeatLe())
  {
    if vs != [] {
      var p := vs[..|vs| - 1];
      var v := vs[|vs| - 1];
      assert vs == p + [v];
      FilterKeepsOrder(p, k);
      var r := ViewsWithKey(p, k);
      forall a | a in r ensures RowSeatLe()(a, v) {
        ViewsWithKeyMembers(p, k, a);
        var i :| 0 <= i < |p| && p[i] == a;
        assert vs[i] == a;
      }
    }
  }

  /** When no section name holds `-`, keys are injective, so every seat of a group has the
      group's own section and row. */
  lemma KeyShape(s: string, r: string)
    ensures |Key(s, r)| == |s| + 1 + |r|
    ensures Key(s, r)[|s|] == '-'
    ensures forall i :: 0 <= i < |s| ==> Key(s, r)[i] == s[i]
  {
  }

  lemma KeyInjective(s1: string, r1: string, s2: string, r2: string)
    requires '-' !in s1 && '-' !in s2 && Key(s1, r1) == Key(s2, r2)
    ensures s1 == s2 && r1 == r2
  {
    var k := Key(s1, r1);
    KeyShape(s1, r1);
    KeyShape(s2, r2);
    if |s1| < |s2| {
      assert false;
    } else if |s2| < |s1| {
      assert false;
    } else {
      assert s1 == k[..|s1|] == s2;
      assert r1 == k[|s1| + 1..] == r2;
    }
  }

  lemma GroupNamesItsSeats(vs: seq<SeatView>, g: nat, v: SeatView)
    requires forall w :: w in vs ==> '-' !in w.section
    requires g < |GroupsOf(vs)| && v in ViewsWithKey(vs, KeysOf(vs)[g])
    ensures GroupsOf(vs)[g].section == v.section && GroupsOf(vs)[g].row == v.row
  {
    var first := FirstWithKey(vs, KeysOf(vs)[g]);
    GroupAt(vs, g);
    ViewsWithKeyMembers(vs, KeysOf(vs)[g], v);
    KeyInjective(first.section, first.row, v.section, v.row);
  }

  /** With a dash in a section name, two different (section, row) pairs share a key and the
      second pair's seats are filed under the first pair's group. */
  lemma KeysCollide()
    ensures Key("Front-Left", "A") == Key("Front", "Left-A")
    ensures GroupsOf([SeatView(0, "1", "A", "Front-Left", Available, 10, Regular),
                      SeatView(1, "2", "Left-A", "Front", Available, 10, Regular)])
      == [SeatGroup("Front-Left", "A", [GroupEntry(0, "1", Available, 10, Regular),
                                        GroupEntry(1, "2", Available, 10, Regular)])]
  {
    var a := SeatView(0, "1", "A", "Front-Left", Available, 10, Regular);
    var b := SeatView(1, "2", "Left-A", "Front", Available, 10, Regular);
    assert ViewKey(a) == ViewKey(b);
    assert KeysOf([]) == [];
    assert GroupsOf([]) == [];
    GroupsOfSnocNew([], a);
    assert [] + [a] == [a] && [a] + [b] == [a, b];
    assert GroupsOf([a]) == [SeatGroup("Front-Left", "A", [EntryOf(a)])];
    assert KeysOf([a]) == [ViewKey(a)];
    GroupsOfSnocOld([a], b, 0);
    var g := SeatGroup("Front-Left", "A", [EntryOf(a)]);
    assert GroupsOf([a, b]) == [g][0 := g.(seats := g.seats + [EntryOf(b)])];
    assert [EntryOf(a)] + [EntryOf(b)] == [EntryOf(a), EntryOf(b)];
    assert GroupsOf([a, b]) == [SeatGroup("Front-Left", "A", [EntryOf(a), EntryOf(b)])];
  }

  /** The event part of the response. */
  datatype EventSummary = EventSummary(id: EventId, name: string, hasSeatSelection: bool, seatLayout: Option<SeatLayout>)

  datatype SeatsPage = SeatsPage(groups: seq<SeatGroup>, event: EventSummary)

  /** The handler: NotFound when the event does not exist, otherwise the groups of the
      filtered, sorted seats and the event's seat-selection fields. Reading changes nothing. */
  method GetSeats(db: Db, event: EventId, q: SeatQuery) returns (r: Result<SeatsPage, Error>)
    ensures event >= |db.events| ==> r == Failure(NotFound)
    ensures event < |db.events| ==>
      var e := db.events[event];
      r == Success(SeatsPage(GroupsOf(ListedViews(db, event, q)), EventSummary(event, e.name, e.hasSeatSelection, e.seatLayout)))
  {
    if event >= |db.events| {
      return Failure(NotFound);
    }
    var e := db.events[event];
    var groups := GroupSeats(ListedViews(db, event, q));
    r := Success(SeatsPage(groups, EventSummary(event, e.name, e.hasSeatSelection, e.seatLayout)));
  }
}
