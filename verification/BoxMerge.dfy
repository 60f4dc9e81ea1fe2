/** The fixpoint that merges fence boxes which touch. */
module BoxMerge {
  // The boxes of world_adapters.py. Coordinates are reals. Unless a member says so, a box may be inverted
  // (west > east).

  datatype Box = Box(west: real, south: real, east: real, north: real)

  predicate Upright(b: Box) {
    b.west <= b.east && b.south <= b.north
  }

  predicate Touch(a: Box, b: Box) {
    !(b.east < a.west || b.west > a.east || b.north < a.south || b.south > a.north)
  }

  predicate Within(a: Box, b: Box) {
    b.west <= a.west && b.south <= a.south && a.east <= b.east && a.north <= b.north
  }

  function Min(x: real, y: real): real { if y < x then y else x }

  function Max(x: real, y: real): real { if y > x then y else x }

  function Hull(a: Box, b: Box): Box {
    Box(Min(a.west, b.west), Min(a.south, b.south), Max(a.east, b.east), Max(a.north, b.north))
  }

  // ---- what a merged list promises --------------------------------------------------

  ghost predicate Hosted(b: Box, cover: seq<Box>) {
    exists c :: c in cover && Within(b, c)
  }

  /** Every box lies inside some box of the cover. */
  ghost predicate Covers(cover: seq<Box>, boxes: seq<Box>) {
    forall b {:trigger Hosted(b, cover)} | b in boxes :: Hosted(b, cover)
  }

  /** No two boxes of the list touch. */
  ghost predicate Apart(cover: seq<Box>) {
    forall i, j | 0 <= i < j < |cover| :: !Touch(cover[i], cover[j])
  }

  /** Each side of `c` is a side of an input inside `c`: `c` is the hull of the inputs it holds. */
  ghost predicate HullOfInputs(c: Box, boxes: seq<Box>) {
    && (exists b :: b in boxes && Within(b, c) && b.west == c.west)
    && (exists b :: b in boxes && Within(b, c) && b.south == c.south)
    && (exists b :: b in boxes && Within(b, c) && b.east == c.east)
    && (exists b :: b in boxes && Within(b, c) && b.north == c.north)
  }

  ghost predicate AllHulls(cover: seq<Box>, boxes: seq<Box>) {
    forall c {:trigger HullOfInputs(c, boxes)} | c in cover :: HullOfInputs(c, boxes)
  }

  /** Any cover of the same boxes by boxes that do not touch also covers this one. */
  ghost predicate BelowRivals(cover: seq<Box>, boxes: seq<Box>) {
    forall rival {:trigger Covers(rival, cover)} :: Apart(rival) && Covers(rival, boxes) ==> Covers(rival, cover)
  }

  /** Halfway to the answer: a cover made of hulls that lies inside every rival answer. */
  ghost predicate Grown(cover: seq<Box>, boxes: seq<Box>) {
    Covers(cover, boxes) && AllHulls(cover, boxes) && BelowRivals(cover, boxes)
  }

  /** The least cover by boxes that do not touch. */
  ghost predicate LeastApartCover(cover: seq<Box>, boxes: seq<Box>) {
    Apart(cover) && Grown(cover, boxes)
  }

  lemma HostedOutward(a: Box, b: Box, cover: seq<Box>)
    requires Within(a, b) && Hosted(b, cover)
    ensures Hosted(a, cover)
  {
    var c :| c in cover && Within(b, c);
    assert Within(a, c);
  }

  lemma CoversTransitive(cover: seq<Box>, middle: seq<Box>, boxes: seq<Box>)
    requires Covers(cover, middle) && Covers(middle, boxes)
    ensures Covers(cover, boxes)
  {
    forall b | b in boxes ensures Hosted(b, cover) {
      assert Hosted(b, middle);
      var c :| c in middle && Within(b, c);
      HostedOutward(b, c, cover);
    }
  }

  // ---- one merge ---------------------------------------------------------------------

  /** Two touching boxes that fit inside a non-touching list fit inside the same member of it. */
  lemma TouchingShareAHost(rival: seq<Box>, a: Box, b: Box)
    requires Apart(rival) && Touch(a, b) && Hosted(a, rival) && Hosted(b, rival)
    ensures Hosted(Hull(a, b), rival)
  {
    var i :| 0 <= i < |rival| && Within(a, rival[i]);
    var j :| 0 <= j < |rival| && Within(b, rival[j]);
    assert Touch(rival[i], rival[j]) && Touch(rival[j], rival[i]);
    assert i == j;
    assert Within(Hull(a, b), rival[i]);
  }

  lemma HullKeepsHull(a: Box, b: Box, boxes: seq<Box>)
    requires HullOfInputs(a, boxes) && HullOfInputs(b, boxes)
    ensures HullOfInputs(Hull(a, b), boxes)
  {
    var h := Hull(a, b);
    forall x | Within(x, a) || Within(x, b) ensures Within(x, h) {}
  }

  /**
   Merging two touching members of a list into their hull keeps `Grown`. `now` holds the hull
   and every other box of `was`.
   */
  lemma MergeKeepsGrown(boxes: seq<Box>, was: seq<Box>, now: seq<Box>, a: Box, b: Box)
    requires Touch(a, b) && a in was && b in was
    requires Grown(was, boxes)
    requires Hull(a, b) in now
    requires forall x | x in was :: x == a || x == b || x in now
    requires forall x | x in now :: x == Hull(a, b) || x in was
    ensures Grown(now, boxes)
  {
    var h := Hull(a, b);
    assert Covers(now, was) by {
      forall x | x in was ensures Hosted(x, now) {
        assert Within(a, h) && Within(b, h) && Within(x, x);
      }
    }
    CoversTransitive(now, was, boxes);
    HullKeepsHull(a, b, boxes);
    assert AllHulls(now, boxes);
    forall rival | Apart(rival) && Covers(rival, boxes) ensures Covers(rival, now) {
      assert Covers(rival, was);
      TouchingShareAHost(rival, a, b);
    }
  }

  /** The merge as the sweep does it: box `b`, next in line, joins out[j]. */
  lemma JoinKeepsGrown(boxes: seq<Box>, out: seq<Box>, j: nat, b: Box, rest: seq<Box>)
    requires j < |out| && Touch(out[j], b)
    requires Grown(out + [b] + rest, boxes)
    ensures Grown(out[j := Hull(out[j], b)] + rest, boxes)
  {
    var now := out[j := Hull(out[j], b)] + rest;
    assert now[j] == Hull(out[j], b);
    forall x | x in out ensures x == out[j] || x in now {
      var k :| 0 <= k < |out| && out[k] == x;
      assert k != j ==> now[k] == x;
    }
    MergeKeepsGrown(boxes, out + [b] + rest, now, out[j], b);
  }

  // ---- the fixpoint ------------------------------------------------------------------

  /** Box `b` joins the first box of `out` that it touches, or is appended to `out`. */
  method Place(out: seq<Box>, b: Box, ghost rest: seq<Box>, ghost boxes: seq<Box>)
    returns (out': seq<Box>, joined: bool)
    requires Grown(out + [b] + rest, boxes)
    ensures Grown(out' + rest, boxes)
    ensures if joined then |out'| == |out| else out' == out + [b] && (Apart(out) ==> Apart(out'))
  {
    var j := 0;
    while j < |out| && !Touch(b, out[j])
      invariant j <= |out|
      invariant forall k | 0 <= k < j :: !Touch(b, out[k])
    {
      j := j + 1;
    }
    if j < |out| {
      JoinKeepsGrown(boxes, out, j, b, rest);
      return out[j := Hull(out[j], b)], true;
    }
    return out + [b], false;
  }

  /**
   One sweep over the list. A sweep that merges anything returns a shorter list, which is why
   the fixpoint ends.
   */
  method MergePass(merged: seq<Box>, ghost boxes: seq<Box>) returns (out: seq<Box>, changed: bool)
    requires Grown(merged, boxes)
    ensures Grown(out, boxes)
    ensures if changed then |out| < |merged| else out == merged && Apart(out)
  {
    out, changed := [], false;
    assert out + merged == merged;
    for i := 0 to |merged|
      invariant Grown(out + merged[i..], boxes)
      invariant if changed then |out| < i else out == merged[..i] && Apart(out)
    {
      PullNext(out, merged, i);
      var joined;
      out, joined := Place(out, merged[i], merged[i + 1..], boxes);
      changed := changed || joined;
    }
    assert out + merged[|merged|..] == out;
  }

  lemma PullNext(out: seq<Box>, merged: seq<Box>, i: nat)
    requires i < |merged|
    ensures out + merged[i..] == out + [merged[i]] + merged[i + 1..]
  {
  }

  /** Sweeps until nothing merges; the result is the least cover by boxes that do not touch. */
  method MergeBoxes(boxes: seq<Box>) returns (merged: seq<Box>)
    ensures LeastApartCover(merged, boxes)
    ensures |merged| <= |boxes|
  {
    InputsAreGrown(boxes);
    merged := boxes;
    var changed := true;
    while changed
      invariant Grown(merged, boxes) && |merged| <= |boxes|
      invariant !changed ==> Apart(merged)
      decreases |merged|, changed
    {
      merged, changed := MergePass(merged, boxes);
    }
  }

  lemma InputsAreGrown(boxes: seq<Box>)
    ensures Grown(boxes, boxes)
  {
    forall b | b in boxes ensures Within(b, b) {}
  }

  // ---- the answer does not depend on the order of the input ----------------------------

  /** Two least covers of the same boxes hold exactly the same boxes, each of them once. */
  lemma Confluence(boxes: seq<Box>, boxes': seq<Box>, out: seq<Box>, out': seq<Box>)
    requires forall b | b in boxes :: Upright(b)
    requires forall b :: b in boxes <==> b in boxes'
    requires LeastApartCover(out, boxes) && LeastApartCover(out', boxes')
    ensures multiset(out) == multiset(out')
  {
    assert Covers(out, boxes') && Covers(out', boxes);
    assert Covers(out, out') && Covers(out', out);
    MutualCoversAgree(boxes, out, out');
    MutualCoversAgree(boxes', out', out);
    NoBoxTwice(boxes, out);
    NoBoxTwice(boxes', out');
    SameMembersSameMultiset(out, out');
  }

  lemma HullIsUpright(c: Box, boxes: seq<Box>)
    requires forall b | b in boxes :: Upright(b)
    requires HullOfInputs(c, boxes)
    ensures Upright(c)
  {
  }

  lemma MutualCoversAgree(boxes: seq<Box>, out: seq<Box>, out': seq<Box>)
    requires forall b | b in boxes :: Upright(b)
    requires AllHulls(out, boxes)
    requires Apart(out) && Covers(out, out') && Covers(out', out)
    ensures forall c | c in out :: c in out'
  {
    forall c | c in out ensures c in out' {
      assert Hosted(c, out');
      var d :| d in out' && Within(c, d);
      assert Hosted(d, out);
      var e :| e in out && Within(d, e);
      HullIsUpright(c, boxes);
      var i :| 0 <= i < |out| && out[i] == c;
      var j :| 0 <= j < |out| && out[j] == e;
      assert Touch(c, e) && Touch(e, c);
      assert i == j;
    }
  }

  lemma NoBoxTwice(boxes: seq<Box>, out: seq<Box>)
    requires forall b | b in boxes :: Upright(b)
    requires LeastApartCover(out, boxes)
    ensures forall i, j | 0 <= i < j < |out| :: out[i] != out[j]
  {
    forall i, j | 0 <= i < j < |out| ensures out[i] != out[j] {
      HullIsUpright(out[i], boxes);
      assert Touch(out[i], out[i]);
    }
  }

  lemma {:induction false} DistinctCountsOne<T>(s: seq<T>, x: T)
    requires forall i, j | 0 <= i < j < |s| :: s[i] != s[j]
    ensures multiset(s)[x] == if x in s then 1 else 0
  {
    if s != [] {
      DistinctCountsOne(s[1..], x);
      assert s == [s[0]] + s[1..];
    }
  }

  lemma SameMembersSameMultiset<T>(s: seq<T>, t: seq<T>)
    requires forall i, j | 0 <= i < j < |s| :: s[i] != s[j]
    requires forall i, j | 0 <= i < j < |t| :: t[i] != t[j]
    requires forall x :: x in s <==> x in t
    ensures multiset(s) == multiset(t)
  {
    forall x ensures multiset(s)[x] == multiset(t)[x] {
      DistinctCountsOne(s, x);
      DistinctCountsOne(t, x);
    }
  }

  // ---- the same in coordinates ----------------------------------------------------------------------------

  /** Strictly apart along one of the axes. */
  ghost predicate Separated(a: Box, b: Box) {
    a.east < b.west || b.east < a.west || a.north < b.south || b.north < a.south
  }

  ghost predicate Holds(c: Box, b: Box) {
    c.west <= b.west && c.south <= b.south && b.east <= c.east && b.north <= c.north
  }

  /** Some box of the list holds b. */
  ghost predicate HeldBy(list: seq<Box>, b: Box) {
    exists c :: c in list && Holds(c, b)
  }

  ghost predicate AllSeparated(list: seq<Box>) {
    forall i, j | 0 <= i < j < |list| :: Separated(list[i], list[j])
  }

  ghost predicate AllHeld(list: seq<Box>, boxes: seq<Box>) {
    forall b | b in boxes :: HeldBy(list, b)
  }

  lemma CoversIsAllHeld(list: seq<Box>, boxes: seq<Box>)
    ensures Covers(list, boxes) <==> AllHeld(list, boxes)
  {
    forall b ensures Hosted(b, list) <==> HeldBy(list, b) {
      HostedIsHeld(b, list);
    }
  }

  lemma ApartIsSeparated(list: seq<Box>)
    ensures Apart(list) <==> AllSeparated(list)
  {
  }

  /** The merged boxes are strictly apart and each input lies in one of them; boxes of any list that are strictly
      apart and hold the inputs hold the merged boxes too. */
  lemma MergedInCoordinates(cover: seq<Box>, boxes: seq<Box>, rival: seq<Box>)
    requires LeastApartCover(cover, boxes)
    ensures AllSeparated(cover) && AllHeld(cover, boxes)
    ensures AllSeparated(rival) && AllHeld(rival, boxes) ==> AllHeld(rival, cover)
  {
    ApartIsSeparated(cover);
    ApartIsSeparated(rival);
    CoversIsAllHeld(cover, boxes);
    CoversIsAllHeld(rival, boxes);
    CoversIsAllHeld(rival, cover);
  }

  /** Each side of a merged box is a side of an input that lies inside it. */
  lemma MergedSides(cover: seq<Box>, boxes: seq<Box>, c: Box)
    requires LeastApartCover(cover, boxes) && c in cover
    ensures (exists b :: b in boxes && Holds(c, b) && b.west == c.west)
            && (exists b :: b in boxes && Holds(c, b) && b.south == c.south)
            && (exists b :: b in boxes && Holds(c, b) && b.east == c.east)
            && (exists b :: b in boxes && Holds(c, b) && b.north == c.north)
  {
    assert HullOfInputs(c, boxes);
    forall b ensures Within(b, c) <==> Holds(c, b) {}
  }

  lemma HostedIsHeld(b: Box, list: seq<Box>)
    ensures Hosted(b, list) <==> HeldBy(list, b)
  {
    if c :| c in list && Within(b, c) { assert Holds(c, b); }
    if c :| c in list && Holds(c, b) { assert Within(b, c); }
  }
}
