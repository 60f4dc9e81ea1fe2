/** GeoJSON geometry: the shape rules of the write door and the even-odd test. */
module RayCast {
  // Geometry as geo_scopes.py reads it. Coordinates are reals, so rounding is not modelled.

  import opened Common

  datatype Position = Position(lon: real, lat: real)

  type Ring = seq<Position>

  datatype Geometry =
    | Point(at: Position)
    | LineString(line: seq<Position>)
    | Polygon(rings: seq<Ring>)
    | MultiPolygon(polygons: seq<seq<Ring>>)

  datatype Kind = PointKind | RouteKind | PolygonKind | RegionKind

  // ---- shape rules ---------------------------------------------------------------------

  const MAX_VERTICES := 2000

  predicate InRange(p: Position) {
    -180.0 <= p.lon <= 180.0 && -90.0 <= p.lat <= 90.0
  }

  predicate AllInRange(ps: seq<Position>) {
    forall p | p in ps :: InRange(p)
  }

  function TotalLength(rings: seq<Ring>): nat {
    if rings == [] then 0 else TotalLength(rings[..|rings| - 1]) + |rings[|rings| - 1]|
  }

  predicate ClosedRing(ring: Ring) {
    |ring| >= 4 && AllInRange(ring) && ring[0] == ring[|ring| - 1]
  }

  /** What the write door accepts for a kind. */
  predicate WellFormed(kind: Kind, g: Geometry) {
    match g
    case Point(at) => kind.PointKind? && InRange(at)
    case LineString(line) => kind.RouteKind? && 2 <= |line| <= MAX_VERTICES && AllInRange(line)
    case Polygon(rings) =>
      && (kind.PolygonKind? || kind.RegionKind?)
      && rings != [] && TotalLength(rings) <= MAX_VERTICES
      && forall r | r in rings :: ClosedRing(r)
    case MultiPolygon(_) => false
  }

  // ---- the write door reads JSON -------------------------------------------------------

  datatype Json =
    | Null
    | Flag(value: bool)
    | Number(number: real)
    | Text(text: string)
    | List(items: seq<Json>)
    | Object(fields: map<string, Json>)

  /** A position may carry more than two numbers; the rest is dropped. */
  predicate WritesPosition(v: Json, p: Position) {
    v.List? && |v.items| >= 2 && v.items[0] == Number(p.lon) && v.items[1] == Number(p.lat)
  }

  predicate WritesPositions(v: Json, ps: seq<Position>) {
    v.List? && |v.items| == |ps| && forall k | 0 <= k < |ps| :: WritesPosition(v.items[k], ps[k])
  }

  predicate WritesRings(v: Json, rings: seq<Ring>) {
    v.List? && |v.items| == |rings| && forall k | 0 <= k < |rings| :: WritesPositions(v.items[k], rings[k])
  }

  predicate HasType(v: Json, name: string) {
    v.Object? && "type" in v.fields && v.fields["type"] == Text(name)
  }

  function Coordinates(v: Json): Json {
    if v.Object? && "coordinates" in v.fields then v.fields["coordinates"] else Null
  }

  /** The GeoJSON object v writes the geometry g. */
  predicate Writes(v: Json, g: Geometry) {
    match g
    case Point(at) => HasType(v, "Point") && WritesPosition(Coordinates(v), at)
    case LineString(line) => HasType(v, "LineString") && WritesPositions(Coordinates(v), line)
    case Polygon(rings) => HasType(v, "Polygon") && WritesRings(Coordinates(v), rings)
    case MultiPolygon(_) => false
  }

  /** A list of JSON values writes at most one list of rings. */
  lemma WritesOneRings(v: Json, rings: seq<Ring>, rings': seq<Ring>)
    requires WritesRings(v, rings) && WritesRings(v, rings')
    ensures rings == rings'
  {
    forall k | 0 <= k < |rings| ensures rings[k] == rings'[k] {
      assert WritesPositions(v.items[k], rings[k]) && WritesPositions(v.items[k], rings'[k]);
      forall i | 0 <= i < |rings[k]| ensures rings[k][i] == rings'[k][i] {
        assert WritesPosition(v.items[k].items[i], rings[k][i]) && WritesPosition(v.items[k].items[i], rings'[k][i]);
      }
    }
  }

  function PositionText(p: Position): Json { List([Number(p.lon), Number(p.lat)]) }

  function LineText(ps: seq<Position>): Json {
    List(seq(|ps|, k requires 0 <= k < |ps| => PositionText(ps[k])))
  }

  function GeometryText(name: string, coordinates: Json): Json {
    Object(map["type" := Text(name), "coordinates" := coordinates])
  }

  /** A stored geometry as JSON. */
  function ToJson(g: Geometry): Json {
    match g
    case Point(at) => GeometryText("Point", PositionText(at))
    case LineString(line) => GeometryText("LineString", LineText(line))
    case Polygon(rings) =>
      GeometryText("Polygon", List(seq(|rings|, k requires 0 <= k < |rings| => LineText(rings[k]))))
    case MultiPolygon(_) => Null
  }

  lemma WritesItself(g: Geometry)
    requires !g.MultiPolygon?
    ensures Writes(ToJson(g), g)
  {
  }

  datatype GeometryError = NotAnObject | WrongType | BadPosition | OutOfRange | TooFew | TooMany | NoRing | OpenRing

  method ReadPosition(v: Json) returns (r: Result<Position, GeometryError>)
    ensures r.Ok? ==> WritesPosition(v, r.value) && InRange(r.value)
    ensures r.Err? ==> forall p :: WritesPosition(v, p) ==> !InRange(p)
  {
    if !v.List? || |v.items| < 2 || !v.items[0].Number? || !v.items[1].Number? { return Err(BadPosition); }
    var p := Position(v.items[0].number, v.items[1].number);
    return if InRange(p) then Ok(p) else Err(OutOfRange);
  }

  method ReadPositions(vs: seq<Json>) returns (r: Result<seq<Position>, GeometryError>)
    ensures r.Ok? ==> WritesPositions(List(vs), r.value) && AllInRange(r.value)
    ensures r.Err? ==> forall ps :: WritesPositions(List(vs), ps) ==> !AllInRange(ps)
  {
    var ps: seq<Position> := [];
    for i := 0 to |vs|
      invariant |ps| == i && AllInRange(ps)
      invariant forall k | 0 <= k < i :: WritesPosition(vs[k], ps[k])
    {
      var p := ReadPosition(vs[i]);
      if p.Err? {
        forall qs | WritesPositions(List(vs), qs) ensures !AllInRange(qs) {
          assert WritesPosition(vs[i], qs[i]) && qs[i] in qs;
        }
        return Err(p.error);
      }
      ps := ps + [p.value];
    }
    return Ok(ps);
  }

  /** One ring, when `total` positions have been read before it. */
  method ReadRing(v: Json, total: nat) returns (r: Result<Ring, GeometryError>)
    ensures r.Ok? ==> WritesPositions(v, r.value) && ClosedRing(r.value) && total + |r.value| <= MAX_VERTICES
    ensures r.Err? ==> forall ring :: WritesPositions(v, ring) ==> !ClosedRing(ring) || total + |ring| > MAX_VERTICES
  {
    if !v.List? || |v.items| < 4 { return Err(TooFew); }
    if total + |v.items| > MAX_VERTICES { return Err(TooMany); }
    var ring := ReadPositions(v.items);
    if ring.Err? { return ring; }
    if ring.value[0] != ring.value[|ring.value| - 1] {
      assert forall other :: WritesPositions(v, other) ==>
          WritesPosition(v.items[0], other[0]) && WritesPosition(v.items[|v.items| - 1], other[|v.items| - 1]);
      return Err(OpenRing);
    }
    return ring;
  }

  method ReadRings(vs: seq<Json>) returns (r: Result<seq<Ring>, GeometryError>)
    ensures r.Ok? ==> WritesRings(List(vs), r.value) && TotalLength(r.value) <= MAX_VERTICES
                      && forall k | 0 <= k < |vs| :: ClosedRing(r.value[k])
    ensures r.Err? ==> forall rings :: WritesRings(List(vs), rings) ==>
                         TotalLength(rings) > MAX_VERTICES || exists k :: 0 <= k < |vs| && !ClosedRing(rings[k])
  {
    var rings: seq<Ring>, total := [], 0;
    for i := 0 to |vs|
      invariant |rings| == i && total == TotalLength(rings) <= MAX_VERTICES
      invariant forall k | 0 <= k < i :: WritesPositions(vs[k], rings[k]) && ClosedRing(rings[k])
    {
      var ring := ReadRing(vs[i], total);
      if ring.Err? {
        forall others | WritesRings(List(vs), others)
          ensures TotalLength(others) > MAX_VERTICES || exists k :: 0 <= k < |vs| && !ClosedRing(others[k])
        {
          WritesOneRings(List(vs[..i]), rings, others[..i]);
          assert WritesPositions(vs[i], others[i]);
          TotalLengthGrows(others, i + 1);
          assert others[..i + 1][..i] == rings;
        }
        return Err(ring.error);
      }
      assert (rings + [ring.value])[..i] == rings;
      rings, total := rings + [ring.value], total + |ring.value|;
    }
    return Ok(rings);
  }

  /** The JSON is accepted exactly if it writes a well-formed geometry, and that geometry comes back. */
  method ValidateGeometry(kind: Kind, v: Json) returns (r: Result<Geometry, GeometryError>)
    ensures r.Ok? ==> Writes(v, r.value) && WellFormed(kind, r.value)
    ensures r.Err? ==> forall g :: Writes(v, g) ==> !WellFormed(kind, g)
  {
    if !v.Object? { return Err(NotAnObject); }
    var coordinates := Coordinates(v);
    match kind
    case PointKind =>
      if !HasType(v, "Point") { return Err(WrongType); }
      var at := ReadPosition(coordinates);
      return if at.Ok? then Ok(Point(at.value)) else Err(at.error);
    case RouteKind =>
      if !HasType(v, "LineString") { return Err(WrongType); }
      if !coordinates.List? || |coordinates.items| < 2 { return Err(TooFew); }
      if |coordinates.items| > MAX_VERTICES { return Err(TooMany); }
      var line := ReadPositions(coordinates.items);
      return if line.Ok? then Ok(LineString(line.value)) else Err(line.error);
    case _ =>
      if !HasType(v, "Polygon") { return Err(WrongType); }
      if !coordinates.List? || coordinates.items == [] { return Err(NoRing); }
      var rings := ReadRings(coordinates.items);
      return if rings.Ok? then Ok(Polygon(rings.value)) else Err(rings.error);
  }

  /** JSON writes at most one geometry. */
  lemma WritesOne(v: Json, g: Geometry, g': Geometry)
    requires Writes(v, g) && Writes(v, g')
    ensures g == g'
  {
    match g
    case Polygon(rings) => WritesOneRings(Coordinates(v), rings, g'.rings);
    case LineString(line) =>
      forall i | 0 <= i < |line| ensures line[i] == g'.line[i] {
        assert WritesPosition(Coordinates(v).items[i], line[i]) && WritesPosition(Coordinates(v).items[i], g'.line[i]);
      }
    case _ =>
  }

  lemma {:induction false} TotalLengthGrows(rings: seq<Ring>, k: nat)
    requires k <= |rings|
    ensures TotalLength(rings[..k]) <= TotalLength(rings)
    decreases |rings|
  {
    if k < |rings| {
      TotalLengthGrows(rings[..|rings| - 1], k);
      assert rings[..|rings| - 1][..k] == rings[..k];
    } else {
      assert rings[..k] == rings;
    }
  }

  // ---- the even-odd test ------------------------------------------------------------------

  /** The edge runs from one side of the horizontal line through `lat` to the other. */
  predicate Straddles(p: Position, q: Position, lat: real) {
    (p.lat > lat) != (q.lat > lat)
  }

  function CrossingLon(p: Position, q: Position, lat: real): real
    requires p.lat != q.lat
  {
    (q.lon - p.lon) * (lat - p.lat) / (q.lat - p.lat) + p.lon
  }

  /** The edge crosses the eastward ray from (lon, lat). */
  predicate Crosses(p: Position, q: Position, lon: real, lat: real) {
    Straddles(p, q, lat) && lon < CrossingLon(p, q, lat)
  }

  /** The vertex before ring[k] going round. */
  function Before(ring: Ring, k: nat): Position
    requires k < |ring|
  {
    ring[if k == 0 then |ring| - 1 else k - 1]
  }

  /** How many of the edges into the first k vertices cross the ray. */
  function Crossings(ring: Ring, lon: real, lat: real, k: nat): nat
    requires k <= |ring|
  {
    if k == 0 then 0
    else Crossings(ring, lon, lat, k - 1)
         + if Crosses(Before(ring, k - 1), ring[k - 1], lon, lat) then 1 else 0
  }

  ghost predicate InRing(ring: Ring, lon: real, lat: real) {
    |ring| >= 3 && Crossings(ring, lon, lat, |ring|) % 2 == 1
  }

  ghost predicate InPolygon(rings: seq<Ring>, lon: real, lat: real) {
    && rings != [] && InRing(rings[0], lon, lat)
    && forall k | 1 <= k < |rings| :: !InRing(rings[k], lon, lat)
  }

  ghost predicate InGeometry(g: Geometry, lon: real, lat: real) {
    match g
    case Polygon(rings) => InPolygon(rings, lon, lat)
    case MultiPolygon(polygons) => exists k :: 0 <= k < |polygons| && InPolygon(polygons[k], lon, lat)
    case _ => false
  }

  /** One edge more turns the parity over just if it is crossed. */
  lemma CrossingsNext(ring: Ring, lon: real, lat: real, i: nat, previous: Position)
    requires i < |ring| && previous == Before(ring, i)
    ensures (Crossings(ring, lon, lat, i + 1) % 2 == 1)
            <==> (Crossings(ring, lon, lat, i) % 2 == 1) != Crosses(previous, ring[i], lon, lat)
  {
  }

  method PointInRing(lon: real, lat: real, ring: Ring) returns (inside: bool)
    ensures inside <==> InRing(ring, lon, lat)
  {
    inside := false;
    if |ring| < 3 { return; }
    var previous := ring[|ring| - 1];
    for i := 0 to |ring|
      invariant previous == if i == 0 then ring[|ring| - 1] else ring[i - 1]
      invariant inside <==> Crossings(ring, lon, lat, i) % 2 == 1
    {
      var point := ring[i];
      CrossingsNext(ring, lon, lat, i, previous);
      if (previous.lat > lat) != (point.lat > lat) {
        var intersect := (point.lon - previous.lon) * (lat - previous.lat) / (point.lat - previous.lat) + previous.lon;
        assert intersect == CrossingLon(previous, point, lat);
        if lon < intersect {
          inside := !inside;
        }
      }
      previous := point;
    }
  }

  method PointInPolygon(rings: seq<Ring>, lon: real, lat: real) returns (inside: bool)
    ensures inside <==> InPolygon(rings, lon, lat)
  {
    if rings == [] { return false; }
    var outer := PointInRing(lon, lat, rings[0]);
    if !outer { return false; }
    for k := 1 to |rings|
      invariant forall h | 1 <= h < k :: !InRing(rings[h], lon, lat)
    {
      var inHole := PointInRing(lon, lat, rings[k]);
      if inHole { return false; }
    }
    return true;
  }

  method PointInGeometry(g: Geometry, lon: real, lat: real) returns (inside: bool)
    ensures inside <==> InGeometry(g, lon, lat)
  {
    match g
    case Polygon(rings) => inside := PointInPolygon(rings, lon, lat);
    case MultiPolygon(polygons) =>
      for k := 0 to |polygons|
        invariant forall h | 0 <= h < k :: !InPolygon(polygons[h], lon, lat)
      {
        inside := PointInPolygon(polygons[k], lon, lat);
        if inside { return; }
      }
      return false;
    case _ => return false;
  }

  // ---- inside the ring means inside its bounding box ------------------------------------------

  /** A closed walk meets a horizontal line an even number of times: the parity of the straddling
      edges up to vertex k says on which side of the line vertex k lies. */
  function Straddling(ring: Ring, lat: real, k: nat): nat
    requires k <= |ring|
  {
    if k == 0 then 0
    else Straddling(ring, lat, k - 1) + if Straddles(Before(ring, k - 1), ring[k - 1], lat) then 1 else 0
  }

  lemma {:induction false} StraddlingParity(ring: Ring, lat: real, k: nat)
    requires 0 < k <= |ring|
    ensures Straddling(ring, lat, k) % 2 == 1
            <==> (ring[|ring| - 1].lat > lat) != (ring[k - 1].lat > lat)
  {
    if k > 1 {
      StraddlingParity(ring, lat, k - 1);
    } else {
      assert Straddling(ring, lat, 0) == 0;
    }
  }

  /** The intersection is a convex combination of the two ends of the edge. */
  lemma CrossingIsBetween(p: Position, q: Position, lat: real)
    requires Straddles(p, q, lat)
    ensures p.lon <= CrossingLon(p, q, lat) <= q.lon || q.lon <= CrossingLon(p, q, lat) <= p.lon
  {
    var share := (lat - p.lat) / (q.lat - p.lat);
    assert 0.0 <= share <= 1.0 by { ShareIsFraction(lat - p.lat, q.lat - p.lat); }
    var width := q.lon - p.lon;
    assert CrossingLon(p, q, lat) == width * share + p.lon by {
      MulDiv(width, lat - p.lat, q.lat - p.lat);
    }
    if width >= 0.0 {
      ScaleBetween(width, share);
    } else {
      ScaleBetween(-width, share);
      assert width * share == -((-width) * share);
    }
  }

  lemma ShareIsFraction(a: real, b: real)
    requires b != 0.0
    requires if b > 0.0 then 0.0 <= a <= b else b <= a <= 0.0
    ensures 0.0 <= a / b <= 1.0
  {
    assert (a / b) * b == a;
  }

  lemma MulDiv(x: real, a: real, b: real)
    requires b != 0.0
    ensures x * a / b == x * (a / b)
  {
    var s := a / b;
    assert s * b == a;
    assert x * a == (x * s) * b;
    assert (x * s) * b / b == x * s;
  }

  lemma ScaleBetween(width: real, share: real)
    requires width >= 0.0 && 0.0 <= share <= 1.0
    ensures 0.0 <= width * share <= width
  {
    assert width * (1.0 - share) >= 0.0;
    assert width * (1.0 - share) == width - width * share;
  }

  lemma {:induction false} WestOfAllCrossesWhereItStraddles(ring: Ring, lon: real, lat: real, k: nat)
    requires k <= |ring| && forall p | p in ring :: lon < p.lon
    ensures Crossings(ring, lon, lat, k) == Straddling(ring, lat, k)
  {
    if k > 0 {
      WestOfAllCrossesWhereItStraddles(ring, lon, lat, k - 1);
      var p, q := Before(ring, k - 1), ring[k - 1];
      if Straddles(p, q, lat) { CrossingIsBetween(p, q, lat); }
    }
  }

  lemma {:induction false} EastOfAllCrossesNothing(ring: Ring, lon: real, lat: real, k: nat)
    requires k <= |ring| && forall p | p in ring :: p.lon <= lon
    ensures Crossings(ring, lon, lat, k) == 0
  {
    if k > 0 {
      EastOfAllCrossesNothing(ring, lon, lat, k - 1);
      var p, q := Before(ring, k - 1), ring[k - 1];
      if Straddles(p, q, lat) { CrossingIsBetween(p, q, lat); }
    }
  }

  lemma {:induction false} OneSideCrossesNothing(ring: Ring, lon: real, lat: real, k: nat)
    requires k <= |ring|
    requires (forall p | p in ring :: p.lat > lat) || (forall p | p in ring :: p.lat <= lat)
    ensures Crossings(ring, lon, lat, k) == 0
  {
    if k > 0 {
      OneSideCrossesNothing(ring, lon, lat, k - 1);
      assert Before(ring, k - 1) in ring && ring[k - 1] in ring;
    }
  }

  /** Vertices of the list lie weakly west and south of the point, and strictly east and north. */
  ghost predicate Surrounds(ps: seq<Position>, lon: real, lat: real) {
    && (exists p :: p in ps && p.lon <= lon) && (exists p :: p in ps && lon < p.lon)
    && (exists p :: p in ps && p.lat <= lat) && (exists p :: p in ps && lat < p.lat)
  }

  /** A point that the even-odd test accepts lies in the half-open bounding box of the ring,
      whether or not the ring is closed, simple or in range. */
  lemma InRingInBox(ring: Ring, lon: real, lat: real)
    requires InRing(ring, lon, lat)
    ensures Surrounds(ring, lon, lat)
  {
    if forall p | p in ring :: lon < p.lon {
      WestOfAllCrossesWhereItStraddles(ring, lon, lat, |ring|);
      StraddlingParity(ring, lat, |ring|);
    }
    if forall p | p in ring :: p.lon <= lon {
      EastOfAllCrossesNothing(ring, lon, lat, |ring|);
    }
    if (forall p | p in ring :: p.lat > lat) || (forall p | p in ring :: p.lat <= lat) {
      OneSideCrossesNothing(ring, lon, lat, |ring|);
    }
  }

  /** On an upright rectangle the test is exact: the half-open box, whichever way the ring turns. */
  lemma RectangleExact(w: real, s: real, e: real, n: real, clockwise: bool, lon: real, lat: real)
    requires w < e && s < n
    ensures InRing(if clockwise
                   then [Position(w, s), Position(w, n), Position(e, n), Position(e, s), Position(w, s)]
                   else [Position(w, s), Position(e, s), Position(e, n), Position(w, n), Position(w, s)],
                   lon, lat)
            <==> w <= lon < e && s <= lat < n
  {
    var sw, se, ne, nw := Position(w, s), Position(e, s), Position(e, n), Position(w, n);
    var ring := if clockwise then [sw, nw, ne, se, sw] else [sw, se, ne, nw, sw];
    UprightEdge(w, s, n, lon, lat);
    UprightEdge(e, s, n, lon, lat);
    assert Crossings(ring, lon, lat, 1) == Crossings(ring, lon, lat, 0) == 0;
    assert Crossings(ring, lon, lat, 2) == if clockwise && Crosses(sw, nw, lon, lat) then 1 else 0;
    assert Crossings(ring, lon, lat, 3) == Crossings(ring, lon, lat, 2)
           + if !clockwise && Crosses(se, ne, lon, lat) then 1 else 0;
    assert Crossings(ring, lon, lat, 4) == Crossings(ring, lon, lat, 3)
           + if clockwise && Crosses(ne, se, lon, lat) then 1 else 0;
    assert Crossings(ring, lon, lat, 5) == Crossings(ring, lon, lat, 4)
           + if !clockwise && Crosses(nw, sw, lon, lat) then 1 else 0;
  }

  lemma UprightEdge(x: real, s: real, n: real, lon: real, lat: real)
    requires s < n
    ensures Crosses(Position(x, s), Position(x, n), lon, lat) <==> s <= lat < n && lon < x
    ensures Crosses(Position(x, n), Position(x, s), lon, lat) <==> s <= lat < n && lon < x
  {
    if s <= lat < n {
      CrossingIsBetween(Position(x, s), Position(x, n), lat);
      CrossingIsBetween(Position(x, n), Position(x, s), lat);
    }
  }

  // ---- triangles ------------------------------------------------------------------------------

  /** Twice the signed area of the triangle p, q, (lon, lat): positive on the left of the edge. */
  function Turn(p: Position, q: Position, lon: real, lat: real): real {
    (q.lon - p.lon) * (lat - p.lat) - (q.lat - p.lat) * (lon - p.lon)
  }

  lemma QuotientExceeds(a: real, x: real, d: real)
    requires d != 0.0
    ensures d > 0.0 ==> (a < x / d <==> a * d < x)
    ensures d < 0.0 ==> (a < x / d <==> a * d > x)
  {
    var s := x / d;
    assert s * d == x;
    assert (s - a) * d == x - a * d;
    ProductSign(s - a, d);
  }

  lemma ProductSign(a: real, b: real)
    ensures a * b > 0.0 <==> (a > 0.0 && b > 0.0) || (a < 0.0 && b < 0.0)
    ensures a * b == 0.0 <==> a == 0.0 || b == 0.0
  {
    if a != 0.0 && b != 0.0 {
      assert a > 0.0 && b > 0.0 ==> a * b > 0.0;
      assert a < 0.0 && b < 0.0 ==> (-a) * (-b) > 0.0;
      assert a > 0.0 && b < 0.0 ==> a * (-b) > 0.0;
      assert a < 0.0 && b > 0.0 ==> (-a) * b > 0.0;
    }
  }

  /** An edge is crossed exactly if it straddles the ray's line and the point is west of it, yb the cross product. */
  lemma CrossesByCrossProduct(p: Position, q: Position, lon: real, lat: real)
    ensures Crosses(p, q, lon, lat) <==>
            (p.lat <= lat < q.lat && (lon - p.lon) * (q.lat - p.lat) < (q.lon - p.lon) * (lat - p.lat))
            || (q.lat <= lat < p.lat && (lon - p.lon) * (q.lat - p.lat) > (q.lon - p.lon) * (lat - p.lat))
  {
    if Straddles(p, q, lat) {
      QuotientExceeds(lon - p.lon, (q.lon - p.lon) * (lat - p.lat), q.lat - p.lat);
    }
  }

  /** On the segment between p and q, its ends included. */
  predicate OnSegment(p: Position, q: Position, lon: real, lat: real) {
    && Turn(p, q, lon, lat) == 0.0
    && (p.lon <= lon <= q.lon || q.lon <= lon <= p.lon) && (p.lat <= lat <= q.lat || q.lat <= lat <= p.lat)
  }

  lemma CrossesByTurn(p: Position, q: Position, lon: real, lat: real)
    ensures Crosses(p, q, lon, lat) <==>
            (p.lat <= lat < q.lat && Turn(p, q, lon, lat) > 0.0) || (q.lat <= lat < p.lat && Turn(p, q, lon, lat) < 0.0)
  {
    CrossesByCrossProduct(p, q, lon, lat);
    assert (lon - p.lon) * (q.lat - p.lat) == (q.lat - p.lat) * (lon - p.lon);
  }

  /** Off a straddling edge the point is on one side of it. */
  lemma OffStraddlingEdge(p: Position, q: Position, lon: real, lat: real)
    requires Straddles(p, q, lat) && !OnSegment(p, q, lon, lat)
    ensures Turn(p, q, lon, lat) != 0.0
  {
    if Turn(p, q, lon, lat) == 0.0 {
      var d, x := q.lat - p.lat, (q.lon - p.lon) * (lat - p.lat);
      assert x == (lon - p.lon) * d;
      assert x / d == lon - p.lon;
      assert CrossingLon(p, q, lat) == lon;
      CrossingIsBetween(p, q, lat);
    }
  }

  /** The three turns weigh the corners to the point: their latitudes add up to its own. */
  lemma TurnsBalance(a: Position, b: Position, c: Position, lon: real, lat: real)
    ensures Turn(b, c, lon, lat) * (a.lat - lat) + Turn(c, a, lon, lat) * (b.lat - lat)
            + Turn(a, b, lon, lat) * (c.lat - lat) == 0.0
  {
    var xa, ya, xb, yb, xc, yc := a.lon - lon, a.lat - lat, b.lon - lon, b.lat - lat, c.lon - lon, c.lat - lat;
    TurnFromPoint(a, b, lon, lat);
    TurnFromPoint(b, c, lon, lat);
    TurnFromPoint(c, a, lon, lat);
    Balance(xa, ya, xb, yb, xc, yc);
  }

  /** The turn in coordinates around the point. */
  lemma TurnFromPoint(p: Position, q: Position, lon: real, lat: real)
    ensures Turn(p, q, lon, lat) == (p.lon - lon) * (q.lat - lat) - (q.lon - lon) * (p.lat - lat)
  {
    var px, py, qx, qy := p.lon - lon, p.lat - lat, q.lon - lon, q.lat - lat;
    assert Turn(p, q, lon, lat) == (qx - px) * (-py) - (qy - py) * (-px);
    assert (qx - px) * (-py) == px * py - qx * py;
    assert (qy - py) * (-px) == px * py - px * qy;
  }

  lemma Balance(xa: real, ya: real, xb: real, yb: real, xc: real, yc: real)
    ensures (xb * yc - xc * yb) * ya + (xc * ya - xa * yc) * yb + (xa * yb - xb * ya) * yc == 0.0
  {
    assert (xb * yc - xc * yb) * ya == xb * yc * ya - xc * yb * ya;
    assert (xc * ya - xa * yc) * yb == xc * ya * yb - xa * yc * yb;
    assert (xa * yb - xb * ya) * yc == xa * yb * yc - xb * ya * yc;
  }

  ghost predicate OneSide(a: Position, b: Position, c: Position, lon: real, lat: real) {
    || (Turn(a, b, lon, lat) > 0.0 && Turn(b, c, lon, lat) > 0.0 && Turn(c, a, lon, lat) > 0.0)
    || (Turn(a, b, lon, lat) < 0.0 && Turn(b, c, lon, lat) < 0.0 && Turn(c, a, lon, lat) < 0.0)
  }

  ghost predicate OffEdges(a: Position, b: Position, c: Position, lon: real, lat: real) {
    !OnSegment(a, b, lon, lat) && !OnSegment(b, c, lon, lat) && !OnSegment(c, a, lon, lat)
  }

  /** Whether the three edges are crossed an odd number of times. */
  predicate OddCrossings(a: Position, b: Position, c: Position, lon: real, lat: real) {
    (Crosses(a, b, lon, lat) != Crosses(b, c, lon, lat)) != Crosses(c, a, lon, lat)
  }

  /** A corner alone on one side of the ray's line: its two edges straddle, and decide. */
  lemma LoneCorner(a: Position, b: Position, c: Position, lon: real, lat: real)
    requires OffEdges(a, b, c, lon, lat) && Straddles(a, b, lat) && Straddles(c, a, lat)
    ensures OddCrossings(a, b, c, lon, lat) <==> OneSide(a, b, c, lon, lat)
  {
    var ab, bc, ca := Turn(a, b, lon, lat), Turn(b, c, lon, lat), Turn(c, a, lon, lat);
    CrossesByTurn(a, b, lon, lat);
    CrossesByTurn(b, c, lon, lat);
    CrossesByTurn(c, a, lon, lat);
    OffStraddlingEdge(a, b, lon, lat);
    OffStraddlingEdge(c, a, lon, lat);
    assert OddCrossings(a, b, c, lon, lat) <==> (ab > 0.0) == (ca > 0.0);
    if (ab > 0.0) == (ca > 0.0) {
      ThirdSide(a, b, c, lon, lat);
    }
  }

  /** The side of the edge opposite a lone corner follows from the other two. */
  lemma ThirdSide(a: Position, b: Position, c: Position, lon: real, lat: real)
    requires OffEdges(a, b, c, lon, lat) && Straddles(a, b, lat) && Straddles(c, a, lat)
    requires var ab, ca := Turn(a, b, lon, lat), Turn(c, a, lon, lat);
             (ab > 0.0 && ca > 0.0) || (ab < 0.0 && ca < 0.0)
    ensures OneSide(a, b, c, lon, lat)
  {
    var ab, bc, ca := Turn(a, b, lon, lat), Turn(b, c, lon, lat), Turn(c, a, lon, lat);
    var ya, yb, yc := a.lat - lat, b.lat - lat, c.lat - lat;
    TurnsBalance(a, b, c, lon, lat);
    assert bc * ya == -(ca * yb) - ab * yc;
    ProductSign(bc, ya);
    ProductSign(ca, yb);
    ProductSign(ab, yc);
    if bc == 0.0 {
      LevelEdge(a, b, c, lon, lat);
    }
  }

  /** A point level with the edge opposite a corner, and on one side of the other edges, is on that edge. */
  lemma LevelEdge(a: Position, b: Position, c: Position, lon: real, lat: real)
    requires Straddles(a, b, lat) && Straddles(c, a, lat) && Turn(b, c, lon, lat) == 0.0
    requires var ab, ca := Turn(a, b, lon, lat), Turn(c, a, lon, lat);
             (ab > 0.0 && ca > 0.0) || (ab < 0.0 && ca < 0.0)
    ensures OnSegment(b, c, lon, lat)
  {
    var ab, ca := Turn(a, b, lon, lat), Turn(c, a, lon, lat);
    var ya, yb, yc := a.lat - lat, b.lat - lat, c.lat - lat;
    TurnsBalance(a, b, c, lon, lat);
    assert ca * yb + ab * yc == 0.0;
    ProductSign(ca, yb);
    ProductSign(ab, yc);
    assert yb == 0.0 && yc == 0.0;
    TurnFromPoint(a, b, lon, lat);
    TurnFromPoint(c, a, lon, lat);
    assert ab == -((b.lon - lon) * ya) && ca == (c.lon - lon) * ya;
    ProductSign(b.lon - lon, ya);
    ProductSign(c.lon - lon, ya);
  }

  /** With all corners on one side of the ray's line the point is not on one side of all edges. */
  lemma NoLoneCorner(a: Position, b: Position, c: Position, lon: real, lat: real)
    requires !Straddles(a, b, lat) && !Straddles(b, c, lat)
    ensures !OneSide(a, b, c, lon, lat)
  {
    var ab, bc, ca := Turn(a, b, lon, lat), Turn(b, c, lon, lat), Turn(c, a, lon, lat);
    TurnsBalance(a, b, c, lon, lat);
    ProductSign(bc, a.lat - lat);
    ProductSign(ca, b.lat - lat);
    ProductSign(ab, c.lat - lat);
    TurnFromPoint(a, b, lon, lat);
  }

  lemma TriangleParity(a: Position, b: Position, c: Position, lon: real, lat: real)
    requires OffEdges(a, b, c, lon, lat)
    ensures OddCrossings(a, b, c, lon, lat) <==> OneSide(a, b, c, lon, lat)
  {
    if Straddles(a, b, lat) {
      if Straddles(c, a, lat) { LoneCorner(a, b, c, lon, lat); } else { LoneCorner(b, c, a, lon, lat); }
    } else if Straddles(b, c, lat) {
      LoneCorner(c, a, b, lon, lat);
    } else {
      NoLoneCorner(a, b, c, lon, lat);
    }
  }

  /** On every triangle, closed either way round, a point off the edges is inside exactly if it lies on the
      same side of all three. */
  lemma TriangleExact(a: Position, b: Position, c: Position, lon: real, lat: real)
    requires OffEdges(a, b, c, lon, lat)
    ensures InRing([a, b, c, a], lon, lat) <==> OneSide(a, b, c, lon, lat)
  {
    TriangleParity(a, b, c, lon, lat);
    var ring := [a, b, c, a];
    assert Crossings(ring, lon, lat, 1) == Crossings(ring, lon, lat, 0) == 0;
    assert Crossings(ring, lon, lat, 2) == if Crosses(a, b, lon, lat) then 1 else 0;
    assert Crossings(ring, lon, lat, 3)
           == Crossings(ring, lon, lat, 2) + if Crosses(b, c, lon, lat) then 1 else 0;
    assert Crossings(ring, lon, lat, 4)
           == Crossings(ring, lon, lat, 3) + if Crosses(c, a, lon, lat) then 1 else 0;
  }

  // ---- every position of a geometry, at any depth -----------------------------------------------

  function Flatten<T>(parts: seq<seq<T>>): (all: seq<T>)
    ensures forall part, x | part in parts && x in part :: x in all
    ensures forall x | x in all :: exists part :: part in parts && x in part
  {
    if parts == [] then [] else parts[0] + Flatten(parts[1..])
  }

  function Positions(g: Geometry): seq<Position> {
    match g
    case Point(at) => [at]
    case LineString(line) => line
    case Polygon(rings) => Flatten(rings)
    case MultiPolygon(polygons) => Flatten(Flatten(polygons))
  }

  lemma InGeometryInBox(g: Geometry, lon: real, lat: real)
    requires InGeometry(g, lon, lat)
    ensures Surrounds(Positions(g), lon, lat)
  {
    match g
    case Polygon(rings) =>
      InRingInBox(rings[0], lon, lat);
      assert rings[0] in rings;
    case MultiPolygon(polygons) =>
      var k :| 0 <= k < |polygons| && InPolygon(polygons[k], lon, lat);
      InRingInBox(polygons[k][0], lon, lat);
      assert polygons[k] in polygons && polygons[k][0] in polygons[k];
      assert polygons[k][0] in Flatten(polygons);
  }

  lemma WellFormedInRange(kind: Kind, g: Geometry)
    requires WellFormed(kind, g)
    ensures Positions(g) != [] && AllInRange(Positions(g))
  {
    match g
    case Polygon(rings) =>
      assert rings[0] in rings && rings[0][0] in rings[0];
    case _ =>
  }

  // ---- holes, several polygons, and the bounds of what is accepted ---------------------------------------------

  datatype Bounds = Bounds(west: real, south: real, east: real, north: real)

  function BoundsRing(b: Bounds): Ring {
    [Position(b.west, b.south), Position(b.east, b.south), Position(b.east, b.north), Position(b.west, b.north),
     Position(b.west, b.south)]
  }

  predicate Proper(b: Bounds) { b.west < b.east && b.south < b.north }

  predicate InBounds(b: Bounds, lon: real, lat: real) { b.west <= lon < b.east && b.south <= lat < b.north }

  function BoundsRings(bs: seq<Bounds>): seq<Ring> {
    seq(|bs|, k requires 0 <= k < |bs| => BoundsRing(bs[k]))
  }

  /** Of an upright box with upright holes, exactly the points of the box that lie in no hole are inside. */
  lemma HolesAreCutOut(outer: Bounds, holes: seq<Bounds>, lon: real, lat: real)
    requires Proper(outer) && forall k | 0 <= k < |holes| :: Proper(holes[k])
    ensures InGeometry(Polygon(BoundsRings([outer] + holes)), lon, lat)
            <==> InBounds(outer, lon, lat) && forall k | 0 <= k < |holes| :: !InBounds(holes[k], lon, lat)
  {
    var all := [outer] + holes;
    var rings := BoundsRings(all);
    forall k | 0 <= k < |all| ensures InRing(rings[k], lon, lat) <==> InBounds(all[k], lon, lat) {
      assert Proper(all[k]);
      RectangleExact(all[k].west, all[k].south, all[k].east, all[k].north, false, lon, lat);
    }
    assert forall k | 0 <= k < |holes| :: holes[k] == all[k + 1];
    assert forall k | 1 <= k < |rings| :: all[k] == holes[k - 1];
  }

  /** Of several upright boxes the points of each are inside. */
  lemma SeveralAreJoined(boxes: seq<Bounds>, lon: real, lat: real)
    requires forall k | 0 <= k < |boxes| :: Proper(boxes[k])
    ensures InGeometry(MultiPolygon(seq(|boxes|, k requires 0 <= k < |boxes| => [BoundsRing(boxes[k])])), lon, lat)
            <==> exists k :: 0 <= k < |boxes| && InBounds(boxes[k], lon, lat)
  {
    var polygons := seq(|boxes|, k requires 0 <= k < |boxes| => [BoundsRing(boxes[k])]);
    forall k | 0 <= k < |boxes| ensures InPolygon(polygons[k], lon, lat) <==> InBounds(boxes[k], lon, lat) {
      RectangleExact(boxes[k].west, boxes[k].south, boxes[k].east, boxes[k].north, false, lon, lat);
    }
    if k :| 0 <= k < |boxes| && InBounds(boxes[k], lon, lat) { assert InPolygon(polygons[k], lon, lat); }
    if k :| 0 <= k < |polygons| && InPolygon(polygons[k], lon, lat) { assert InBounds(boxes[k], lon, lat); }
  }

  lemma {:induction false} TotalIsCount(rings: seq<Ring>)
    ensures TotalLength(rings) == |Flatten(rings)|
  {
    if rings != [] {
      var init := rings[..|rings| - 1];
      TotalIsCount(init);
      FlattenLast(rings);
    }
  }

  lemma {:induction false} FlattenLast<T>(parts: seq<seq<T>>)
    requires parts != []
    ensures Flatten(parts) == Flatten(parts[..|parts| - 1]) + parts[|parts| - 1]
  {
    if |parts| > 1 {
      FlattenLast(parts[1..]);
      assert parts[1..][..|parts| - 2] == parts[..|parts| - 1][1..];
    }
  }

  /** What is accepted lies on the map and has at most 2000 positions: one for a point, two or more for a route, and
      for the other kinds rings of four or more that end where they begin. */
  lemma AcceptedInNumbers(kind: Kind, g: Geometry)
    ensures WellFormed(kind, g) <==>
              && (forall p | p in Positions(g) :: -180.0 <= p.lon <= 180.0 && -90.0 <= p.lat <= 90.0)
              && match g
                 case Point(_) => kind == PointKind
                 case LineString(line) => kind == RouteKind && 2 <= |line| <= 2000
                 case Polygon(rings) =>
                   && (kind == PolygonKind || kind == RegionKind) && 1 <= |rings| && |Positions(g)| <= 2000
                   && forall r: Ring | r in rings ::
                        |r| >= 4 && r[0].lon == r[|r| - 1].lon && r[0].lat == r[|r| - 1].lat
                 case MultiPolygon(_) => false
  {
    match g
    case Polygon(rings) => TotalIsCount(rings);
    case _ =>
  }
}
