/** Which patches of the world a room watches: its scopes' padded boxes, merged where they touch. */
module RoomFences {
  import opened BoxMerge
  import opened RayCast

  type Room = nat

  const ROOM_BBOX_PAD_DEG := 1.5
  const MAX_ROOMS := 24

  /** A live, accepted scope as the fence query returns it. */
  datatype ScopeRow = ScopeRow(room: Room, geometry: Geometry)

  datatype Fence = Fence(room: Room, box: Box)

  predicate Contains(f: Fence, lon: real, lat: real) {
    f.box.west <= lon <= f.box.east && f.box.south <= lat <= f.box.north
  }

  function Least(s: seq<real>): (r: real)
    requires s != []
    ensures r in s && forall x | x in s :: r <= x
  {
    assert s == [s[0]] + s[1..];
    if |s| == 1 then s[0] else Min(s[0], Least(s[1..]))
  }

  function Greatest(s: seq<real>): (r: real)
    requires s != []
    ensures r in s && forall x | x in s :: x <= r
  {
    assert s == [s[0]] + s[1..];
    if |s| == 1 then s[0] else Max(s[0], Greatest(s[1..]))
  }

  function Lons(ps: seq<Position>): seq<real> { seq(|ps|, i requires 0 <= i < |ps| => ps[i].lon) }

  function Lats(ps: seq<Position>): seq<real> { seq(|ps|, i requires 0 <= i < |ps| => ps[i].lat) }

  function PaddedBox(ps: seq<Position>): Box
    requires ps != []
  {
    Box(Max(-180.0, Least(Lons(ps)) - ROOM_BBOX_PAD_DEG), Max(-90.0, Least(Lats(ps)) - ROOM_BBOX_PAD_DEG),
        Min(180.0, Greatest(Lons(ps)) + ROOM_BBOX_PAD_DEG), Min(90.0, Greatest(Lats(ps)) + ROOM_BBOX_PAD_DEG))
  }

  /** The box one row asks for, unless its geometry has no position. */
  function BoxFor(row: ScopeRow): seq<Box> {
    var ps := Positions(row.geometry);
    if ps == [] then [] else [PaddedBox(ps)]
  }

  /** The boxes a room asks for, row by row. */
  function BoxesOf(rows: seq<ScopeRow>, room: Room): seq<Box> {
    if rows == [] then []
    else
      var last := rows[|rows| - 1];
      BoxesOf(rows[..|rows| - 1], room)
      + if last.room == room then BoxFor(last) else []
  }

  function FencesOf(fences: seq<Fence>, room: Room): seq<Box> {
    if fences == [] then []
    else
      var last := fences[|fences| - 1];
      FencesOf(fences[..|fences| - 1], room) + if last.room == room then [last.box] else []
  }

  /** A room's fences are the least cover, by boxes that do not touch, of the boxes it asks for. */
  ghost predicate FencedRoom(all: seq<Fence>, rows: seq<ScopeRow>, room: Room) {
    LeastApartCover(FencesOf(all, room), BoxesOf(rows, room))
  }

  ghost predicate FencedBy(all: seq<Fence>, rows: seq<ScopeRow>) {
    forall room :: FencedRoom(all, rows, room)
  }

  function Asked(perRoom: map<Room, seq<Box>>, room: Room): seq<Box> {
    if room in perRoom then perRoom[room] else []
  }

  /** The table holds for every room just the boxes it asks for. */
  ghost predicate Gathers(perRoom: map<Room, seq<Box>>, rows: seq<ScopeRow>) {
    forall room {:trigger Asked(perRoom, room)} :: Asked(perRoom, room) == BoxesOf(rows, room)
  }

  lemma BoxesOfNext(rows: seq<ScopeRow>, row: ScopeRow, room: Room)
    ensures BoxesOf(rows + [row], room)
            == if room == row.room && BoxFor(row) != [] then BoxesOf(rows, room) + BoxFor(row) else BoxesOf(rows, room)
  {
    assert (rows + [row])[..|rows|] == rows;
  }

  /** What one more row does to the table. */
  function WithRow(perRoom: map<Room, seq<Box>>, row: ScopeRow): map<Room, seq<Box>> {
    if BoxFor(row) == [] then perRoom else perRoom[row.room := Asked(perRoom, row.room) + BoxFor(row)]
  }

  lemma GathersNext(perRoom: map<Room, seq<Box>>, rows: seq<ScopeRow>, row: ScopeRow)
    requires Gathers(perRoom, rows)
    ensures Gathers(WithRow(perRoom, row), rows + [row])
  {
    forall room ensures Asked(WithRow(perRoom, row), room) == BoxesOf(rows + [row], room) {
      BoxesOfNext(rows, row, room);
      assert Asked(perRoom, room) == BoxesOf(rows, room);
    }
  }

  lemma GathersRow(perRoom: map<Room, seq<Box>>, rows: seq<ScopeRow>, i: nat)
    requires i < |rows| && Gathers(perRoom, rows[..i])
    ensures Gathers(WithRow(perRoom, rows[i]), rows[..i + 1])
  {
    assert rows[..i + 1] == rows[..i] + [rows[i]];
    GathersNext(perRoom, rows[..i], rows[i]);
  }

  /** The rooms of the table, each once. */
  ghost predicate ListsRooms(order: seq<Room>, perRoom: map<Room, seq<Box>>) {
    && (forall room :: room in order <==> room in perRoom)
    && (forall i, j | 0 <= i < j < |order| :: order[i] != order[j])
  }

  lemma ListsNewRoom(order: seq<Room>, perRoom: map<Room, seq<Box>>, room: Room, boxes: seq<Box>)
    requires ListsRooms(order, perRoom)
    ensures ListsRooms(if room in perRoom then order else order + [room], perRoom[room := boxes])
  {
  }

  method BoxesPerRoom(rows: seq<ScopeRow>) returns (perRoom: map<Room, seq<Box>>, order: seq<Room>)
    ensures Gathers(perRoom, rows) && ListsRooms(order, perRoom)
  {
    perRoom, order := map[], [];
    for i := 0 to |rows|
      invariant Gathers(perRoom, rows[..i]) && ListsRooms(order, perRoom)
    {
      var row := rows[i];
      var box := BoxFor(row);
      GathersRow(perRoom, rows, i);
      if box != [] {
        var boxes := Asked(perRoom, row.room) + box;
        ListsNewRoom(order, perRoom, row.room, boxes);
        if row.room !in perRoom {
          order := order + [row.room];
        }
        perRoom := perRoom[row.room := boxes];
      }
    }
    assert rows[..|rows|] == rows;
  }

  function FencesFor(room: Room, boxes: seq<Box>): seq<Fence> {
    seq(|boxes|, i requires 0 <= i < |boxes| => Fence(room, boxes[i]))
  }

  lemma {:induction false} FencesOfAppend(fences: seq<Fence>, room: Room, boxes: seq<Box>, other: Room)
    ensures FencesOf(fences + FencesFor(room, boxes), other)
            == FencesOf(fences, other) + if other == room then boxes else []
  {
    if boxes == [] {
      assert fences + FencesFor(room, boxes) == fences;
    } else {
      var init, all := boxes[..|boxes| - 1], fences + FencesFor(room, boxes);
      FencesOfAppend(fences, room, init, other);
      assert all[..|all| - 1] == fences + FencesFor(room, init);
      assert all[|all| - 1] == Fence(room, boxes[|boxes| - 1]);
      assert boxes == init + [boxes[|boxes| - 1]];
    }
  }

  /** What is known once every room of `order` before index i has been fenced. */
  ghost predicate FencedUpTo(built: seq<Fence>, rows: seq<ScopeRow>, order: seq<Room>, i: nat)
    requires i <= |order|
  {
    && (forall k {:trigger order[k]} | 0 <= k < i :: FencedRoom(built, rows, order[k]))
    && (forall room {:trigger FencesOf(built, room)} | room !in order[..i] :: FencesOf(built, room) == [])
  }

  /** Appending the merged boxes of the next room completes that room and disturbs no other. */
  lemma FenceNextRoom(built: seq<Fence>, rows: seq<ScopeRow>, order: seq<Room>, i: nat, boxes: seq<Box>)
    requires i < |order| && forall j, k | 0 <= j < k < |order| :: order[j] != order[k]
    requires FencedUpTo(built, rows, order, i)
    requires LeastApartCover(boxes, BoxesOf(rows, order[i]))
    ensures FencedUpTo(built + FencesFor(order[i], boxes), rows, order, i + 1)
  {
    var grown := built + FencesFor(order[i], boxes);
    forall k | 0 <= k <= i ensures FencedRoom(grown, rows, order[k]) {
      FencesOfAppend(built, order[i], boxes, order[k]);
      assert k < i ==> FencesOf(grown, order[k]) == FencesOf(built, order[k]);
      assert order[i] !in order[..i];
      assert k == i ==> FencesOf(grown, order[k]) == [] + boxes == boxes;
    }
    forall room | room !in order[..i + 1] ensures FencesOf(grown, room) == [] {
      assert order[..i + 1] == order[..i] + [order[i]];
      FencesOfAppend(built, order[i], boxes, room);
    }
  }

  /** The first MAX_ROOMS fences of a list that fences every room. */
  ghost predicate FirstFences(fences: seq<Fence>, rows: seq<ScopeRow>) {
    exists all :: FencedBy(all, rows) && IsCut(fences, all)
  }

  predicate IsCut(fences: seq<Fence>, all: seq<Fence>) {
    fences == all[..if |all| < MAX_ROOMS then |all| else MAX_ROOMS]
  }

  method RoomFences(rows: seq<ScopeRow>) returns (fences: seq<Fence>)
    ensures FirstFences(fences, rows) && |fences| <= 24
  {
    var perRoom, order := BoxesPerRoom(rows);
    var built: seq<Fence> := [];
    for i := 0 to |order|
      invariant FencedUpTo(built, rows, order, i)
    {
      assert Asked(perRoom, order[i]) == BoxesOf(rows, order[i]);
      var boxes := MergeBoxes(perRoom[order[i]]);
      FenceNextRoom(built, rows, order, i, boxes);
      built := built + FencesFor(order[i], boxes);
    }
    forall room ensures FencedRoom(built, rows, room) {
      assert Asked(perRoom, room) == BoxesOf(rows, room);
      AllFenced(perRoom, built, rows, order, room);
    }
    fences := if |built| > MAX_ROOMS then built[..MAX_ROOMS] else built;
    assert FencedBy(built, rows) && IsCut(fences, built);
  }

  lemma AllFenced(perRoom: map<Room, seq<Box>>, all: seq<Fence>, rows: seq<ScopeRow>, order: seq<Room>, room: Room)
    requires Asked(perRoom, room) == BoxesOf(rows, room)
    requires room in order <==> room in perRoom
    requires FencedUpTo(all, rows, order, |order|)
    ensures FencedRoom(all, rows, room)
  {
    assert order[..|order|] == order;
    if room in order {
      var k :| 0 <= k < |order| && order[k] == room;
    } else {
      InputsAreGrown([]);
    }
  }

  // ---- the cheap fence never misses what the exact test admits -------------------------------

  lemma {:induction false} BoxesOfHas(rows: seq<ScopeRow>, i: nat)
    requires i < |rows| && Positions(rows[i].geometry) != []
    ensures PaddedBox(Positions(rows[i].geometry)) in BoxesOf(rows, rows[i].room)
  {
    if i < |rows| - 1 {
      BoxesOfHas(rows[..|rows| - 1], i);
    }
  }

  lemma {:induction false} FencesOfMember(fences: seq<Fence>, room: Room, box: Box)
    requires box in FencesOf(fences, room)
    ensures Fence(room, box) in fences
  {
    var init := fences[..|fences| - 1];
    if box in FencesOf(init, room) {
      FencesOfMember(init, room, box);
    }
  }

  lemma PaddedBoxHolds(ps: seq<Position>, lon: real, lat: real)
    requires ps != [] && AllInRange(ps) && Surrounds(ps, lon, lat)
    ensures PaddedBox(ps).west <= lon <= PaddedBox(ps).east
    ensures PaddedBox(ps).south <= lat <= PaddedBox(ps).north
  {
    forall p | p in ps ensures p.lon in Lons(ps) && p.lat in Lats(ps) {
      var k :| 0 <= k < |ps| && ps[k] == p;
      assert Lons(ps)[k] == p.lon && Lats(ps)[k] == p.lat;
    }
    forall p | p in ps ensures InRange(p) {}
  }

  /** A point inside a scope that the write door accepted is inside a fence of the scope's own room. */
  lemma FenceNeverMisses(rows: seq<ScopeRow>, all: seq<Fence>, i: nat, kind: Kind, lon: real, lat: real)
    requires FencedBy(all, rows)
    requires i < |rows| && WellFormed(kind, rows[i].geometry)
    requires InGeometry(rows[i].geometry, lon, lat)
    ensures exists f :: f in all && f.room == rows[i].room
                        && f.box.west <= lon <= f.box.east && f.box.south <= lat <= f.box.north
  {
    var ps, room := Positions(rows[i].geometry), rows[i].room;
    InGeometryInBox(rows[i].geometry, lon, lat);
    WellFormedInRange(kind, rows[i].geometry);
    PaddedBoxHolds(ps, lon, lat);
    BoxesOfHas(rows, i);
    assert FencedRoom(all, rows, room);
    assert Hosted(PaddedBox(ps), FencesOf(all, room));
    var box :| box in FencesOf(all, room) && Within(PaddedBox(ps), box);
    FencesOfMember(all, room, box);
    assert Contains(Fence(room, box), lon, lat);
  }

  /** The order in which the database returns the scopes does not change any room's fences. */
  lemma {:induction false} FencesIgnoreRowOrder(rows: seq<ScopeRow>, rows': seq<ScopeRow>,
                                                all: seq<Fence>, all': seq<Fence>, room: Room)
    requires forall r :: r in rows <==> r in rows'
    requires forall r | r in rows :: exists kind :: WellFormed(kind, r.geometry)
    requires FencedBy(all, rows) && FencedBy(all', rows')
    ensures multiset(FencesOf(all, room)) == multiset(FencesOf(all', room))
  {
    forall b ensures b in BoxesOf(rows, room) <==> b in BoxesOf(rows', room) {
      BoxesOfFrom(rows, rows', room, b);
      BoxesOfFrom(rows', rows, room, b);
    }
    forall b | b in BoxesOf(rows, room) ensures Upright(b) {
      BoxesUpright(rows, room, b);
    }
    assert FencedRoom(all, rows, room) && FencedRoom(all', rows', room);
    Confluence(BoxesOf(rows, room), BoxesOf(rows', room), FencesOf(all, room), FencesOf(all', room));
  }

  lemma {:induction false} BoxSource(rows: seq<ScopeRow>, room: Room, b: Box) returns (i: nat)
    requires b in BoxesOf(rows, room)
    ensures i < |rows| && rows[i].room == room && Positions(rows[i].geometry) != []
    ensures b == PaddedBox(Positions(rows[i].geometry))
  {
    var init := rows[..|rows| - 1];
    if b in BoxesOf(init, room) {
      i := BoxSource(init, room, b);
    } else {
      i := |rows| - 1;
    }
  }

  lemma BoxesOfFrom(rows: seq<ScopeRow>, rows': seq<ScopeRow>, room: Room, b: Box)
    requires forall r :: r in rows ==> r in rows'
    ensures b in BoxesOf(rows, room) ==> b in BoxesOf(rows', room)
  {
    if b in BoxesOf(rows, room) {
      var i := BoxSource(rows, room, b);
      assert rows[i] in rows;
      var j :| 0 <= j < |rows'| && rows'[j] == rows[i];
      BoxesOfHas(rows', j);
    }
  }

  lemma BoxesUpright(rows: seq<ScopeRow>, room: Room, b: Box)
    requires forall r | r in rows :: exists kind :: WellFormed(kind, r.geometry)
    requires b in BoxesOf(rows, room)
    ensures Upright(b)
  {
    var i := BoxSource(rows, room, b);
    assert rows[i] in rows;
    var kind :| WellFormed(kind, rows[i].geometry);
    WellFormedInRange(kind, rows[i].geometry);
    var ps := Positions(rows[i].geometry);
    assert ps[0] in ps && InRange(ps[0]);
    assert Lons(ps)[0] == ps[0].lon && Lats(ps)[0] == ps[0].lat;
  }

  // ---- the fences stay close to the scopes ------------------------------------------------------------------

  /** A side at `x` comes from a position at `at`: one and a half degrees beyond it, but not past `limit`. */
  predicate PaddedLow(x: real, at: real, limit: real) { x == at - 1.5 || (x == limit && at - 1.5 <= limit) }

  predicate PaddedHigh(x: real, at: real, limit: real) { x == at + 1.5 || (x == limit && at + 1.5 >= limit) }

  /** The box asked for by some positions: every side is that far from one of them, and from none of them nearer. */
  lemma PaddedBoxIsTight(ps: seq<Position>)
    requires ps != []
    ensures var b := PaddedBox(ps);
            && (exists p :: p in ps && PaddedLow(b.west, p.lon, -180.0))
            && (exists p :: p in ps && PaddedLow(b.south, p.lat, -90.0))
            && (exists p :: p in ps && PaddedHigh(b.east, p.lon, 180.0))
            && (exists p :: p in ps && PaddedHigh(b.north, p.lat, 90.0))
            && forall p | p in ps ::
                 && (b.west <= p.lon - 1.5 || b.west == -180.0) && (b.south <= p.lat - 1.5 || b.south == -90.0)
                 && (p.lon + 1.5 <= b.east || b.east == 180.0) && (p.lat + 1.5 <= b.north || b.north == 90.0)
  {
    var b := PaddedBox(ps);
    forall p | p in ps ensures p.lon in Lons(ps) && p.lat in Lats(ps) {
      var k :| 0 <= k < |ps| && ps[k] == p;
      assert Lons(ps)[k] == p.lon && Lats(ps)[k] == p.lat;
    }
    var w, s := AtLon(ps, Least(Lons(ps))), AtLat(ps, Least(Lats(ps)));
    var e, n := AtLon(ps, Greatest(Lons(ps))), AtLat(ps, Greatest(Lats(ps)));
    assert PaddedLow(b.west, w.lon, -180.0) && PaddedLow(b.south, s.lat, -90.0);
    assert PaddedHigh(b.east, e.lon, 180.0) && PaddedHigh(b.north, n.lat, 90.0);
  }

  ghost function AtLon(ps: seq<Position>, x: real): (p: Position)
    requires x in Lons(ps)
    ensures p in ps && p.lon == x
  {
    var k :| 0 <= k < |ps| && Lons(ps)[k] == x;
    ps[k]
  }

  ghost function AtLat(ps: seq<Position>, x: real): (p: Position)
    requires x in Lats(ps)
    ensures p in ps && p.lat == x
  {
    var k :| 0 <= k < |ps| && Lats(ps)[k] == x;
    ps[k]
  }

  /** A position of one of the room's own scopes. */
  ghost predicate PlacedIn(rows: seq<ScopeRow>, room: Room, p: Position) {
    exists row :: row in rows && row.room == room && p in Positions(row.geometry)
  }

  /** No fence reaches further: every side is a degree and a half beyond a position of the room's own scopes, or
      the edge of the map. */
  lemma FencesHugTheScopes(rows: seq<ScopeRow>, all: seq<Fence>, f: Fence)
    requires FencedBy(all, rows) && f in all
    ensures (exists p :: PlacedIn(rows, f.room, p) && PaddedLow(f.box.west, p.lon, -180.0))
            && (exists p :: PlacedIn(rows, f.room, p) && PaddedLow(f.box.south, p.lat, -90.0))
            && (exists p :: PlacedIn(rows, f.room, p) && PaddedHigh(f.box.east, p.lon, 180.0))
            && (exists p :: PlacedIn(rows, f.room, p) && PaddedHigh(f.box.north, p.lat, 90.0))
  {
    assert FencedRoom(all, rows, f.room);
    FenceIsOfItsRoom(all, f);
    assert HullOfInputs(f.box, BoxesOf(rows, f.room));
    var w :| w in BoxesOf(rows, f.room) && w.west == f.box.west;
    var s :| s in BoxesOf(rows, f.room) && s.south == f.box.south;
    var e :| e in BoxesOf(rows, f.room) && e.east == f.box.east;
    var n :| n in BoxesOf(rows, f.room) && n.north == f.box.north;
    AskedByPositions(rows, f.room, w);
    AskedByPositions(rows, f.room, s);
    AskedByPositions(rows, f.room, e);
    AskedByPositions(rows, f.room, n);
  }

  lemma {:induction false} FenceIsOfItsRoom(fences: seq<Fence>, f: Fence)
    requires f in fences
    ensures f.box in FencesOf(fences, f.room)
  {
    var init := fences[..|fences| - 1];
    if f in init { FenceIsOfItsRoom(init, f); }
  }

  lemma AskedByPositions(rows: seq<ScopeRow>, room: Room, b: Box)
    requires b in BoxesOf(rows, room)
    ensures (exists p :: PlacedIn(rows, room, p) && PaddedLow(b.west, p.lon, -180.0))
            && (exists p :: PlacedIn(rows, room, p) && PaddedLow(b.south, p.lat, -90.0))
            && (exists p :: PlacedIn(rows, room, p) && PaddedHigh(b.east, p.lon, 180.0))
            && (exists p :: PlacedIn(rows, room, p) && PaddedHigh(b.north, p.lat, 90.0))
  {
    var i := BoxSource(rows, room, b);
    var ps := Positions(rows[i].geometry);
    PaddedBoxIsTight(ps);
    forall p | p in ps ensures PlacedIn(rows, room, p) {
      assert rows[i] in rows;
    }
  }
}
