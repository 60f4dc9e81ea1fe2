/** Rows that name the row they supersede, and the queries that walk them. */
module Lineage {
  // Two recursive queries: up to the root of a lineage, then down to its tip. A row's id is its position.

  import opened Common

  datatype Link = Link(room: nat, up: Option<nat>)

  type Links = seq<Link>

  predicate HasSuccessor(links: Links, i: nat) {
    exists j :: 0 <= j < |links| && links[j].up == Some(i)
  }

  /** A row names an earlier row, or none, as its predecessor. */
  ghost predicate Grounded(links: Links) {
    forall i | 0 <= i < |links| :: links[i].up.Some? ==> links[i].up.value < i
  }

  /** The unique index on the superseded row. */
  ghost predicate OneSuccessor(links: Links) {
    forall j, k | 0 <= j < k < |links| :: links[j].up.Some? ==> links[j].up != links[k].up
  }

  /** The links from the root of the lineage down to i. */
  ghost function PathTo(links: Links, i: nat): (path: seq<nat>)
    requires Grounded(links) && i < |links|
    ensures path != [] && path[|path| - 1] == i && path[0] <= i
  {
    if links[i].up.None? then [i] else PathTo(links, links[i].up.value) + [i]
  }

  ghost function Root(links: Links, i: nat): nat
    requires Grounded(links) && i < |links|
  {
    PathTo(links, i)[0]
  }

  lemma {:induction false} PathPrefix(links: Links, i: nat, k: nat)
    requires Grounded(links) && i < |links| && k < |PathTo(links, i)|
    ensures PathTo(links, i)[k] <= i && PathTo(links, PathTo(links, i)[k]) == PathTo(links, i)[..k + 1]
  {
    var path := PathTo(links, i);
    if k == |path| - 1 {
      assert path[..k + 1] == path;
    } else {
      var parent := PathTo(links, links[i].up.value);
      PathPrefix(links, links[i].up.value, k);
      assert path[..k + 1] == parent[..k + 1];
    }
  }

  /** With one successor per row, a lineage has a single tip. */
  lemma {:induction false} SamePathLength(links: Links, i: nat, j: nat)
    requires Grounded(links) && OneSuccessor(links) && i < |links| && j < |links|
    requires Root(links, i) == Root(links, j) && |PathTo(links, i)| == |PathTo(links, j)|
    ensures i == j
  {
    if |PathTo(links, i)| > 1 {
      SamePathLength(links, links[i].up.value, links[j].up.value);
    }
  }

  lemma TipIsUnique(links: Links, i: nat, j: nat)
    requires Grounded(links) && OneSuccessor(links) && i < |links| && j < |links|
    requires Root(links, i) == Root(links, j) && !HasSuccessor(links, i)
    ensures j in PathTo(links, i)
    ensures !HasSuccessor(links, j) ==> i == j
  {
    var p, q := PathTo(links, i), PathTo(links, j);
    if |q| <= |p| {
      PathPrefix(links, i, |q| - 1);
      SamePathLength(links, p[|q| - 1], j);
      if |q| < |p| {
        PathPrefix(links, i, |q|);
        assert links[p[|q|]].up == Some(j) by { PathStep(links, i, |q|); }
      }
    } else {
      PathPrefix(links, j, |p| - 1);
      SamePathLength(links, q[|p| - 1], i);
      PathPrefix(links, j, |p|);
      PathStep(links, j, |p|);
    }
  }

  lemma {:induction false} PathStep(links: Links, i: nat, k: nat)
    requires Grounded(links) && i < |links| && 0 < k < |PathTo(links, i)|
    ensures PathTo(links, i)[k] < |links| && links[PathTo(links, i)[k]].up == Some(PathTo(links, i)[k - 1])
  {
    if k < |PathTo(links, i)| - 1 {
      PathStep(links, links[i].up.value, k);
    }
  }

  /** A row of either recursive query: the path walked so far, and whether it closed a cycle. */
  datatype Node = Node(id: nat, path: seq<nat>, cycle: bool)

  function Visit(n: Node, id: nat): Node {
    Node(id, n.path + [id], id in n.path)
  }

  /** The ancestors query: parents in the same room until a cycle or a row without one. A path
      without a repeated id is no longer than the table, so |links| + 1 steps are enough. */
  ghost function Ancestors(links: Links, room: nat, n: Node, steps: nat): seq<Node>
    decreases steps
  {
    if steps == 0 then []
    else
      var up := if n.id < |links| then links[n.id].up else None;
      if !n.cycle && up.Some? && up.value < |links| && links[up.value].room == room
      then [n] + Ancestors(links, room, Visit(n, up.value), steps - 1) else [n]
  }

  ghost function RootsAmong(links: Links, nodes: seq<Node>): seq<nat> {
    if nodes == [] then []
    else if nodes[0].id < |links| && links[nodes[0].id].up.None? then [nodes[0].id] + RootsAmong(links, nodes[1..])
    else RootsAmong(links, nodes[1..])
  }

  /** The successors of one node among the rows from j on. */
  ghost function Children(links: Links, room: nat, n: Node, j: nat): seq<Node>
    decreases |links| - j
  {
    if j >= |links| then []
    else if !n.cycle && links[j].up == Some(n.id) && links[j].room == room
    then [Visit(n, j)] + Children(links, room, n, j + 1)
    else Children(links, room, n, j + 1)
  }

  ghost function NextLevel(links: Links, room: nat, level: seq<Node>): seq<Node> {
    if level == [] then []
    else if |level| == 1 then Children(links, room, level[0], 0)
    else Children(links, room, level[0], 0) + NextLevel(links, room, level[1..])
  }

  /** The lineage query, level by level, which is its order by path length. */
  ghost function Levels(links: Links, room: nat, level: seq<Node>, steps: nat): seq<Node>
    decreases steps
  {
    if steps == 0 || level == [] then []
    else
      var next := NextLevel(links, room, level);
      if next == [] then level else level + Levels(links, room, next, steps - 1)
  }

  ghost function Ids(nodes: seq<Node>): seq<nat> {
    seq(|nodes|, k requires 0 <= k < |nodes| => nodes[k].id)
  }

  ghost predicate HasCycle(nodes: seq<Node>) {
    exists n :: n in nodes && n.cycle
  }

  datatype Review = Review(root: nat, current: nat, path: seq<nat>)

  datatype ReviewFailure = NoScope | CycleToRoot | NoUniqueRoot | CycleToTip

  ghost function ReviewOf(links: Links, room: nat, i: nat): Result<Review, ReviewFailure> {
    if i >= |links| || links[i].room != room then Err(NoScope)
    else
      var up := Ancestors(links, room, Node(i, [i], false), |links| + 1);
      var roots := RootsAmong(links, up);
      if HasCycle(up) then Err(CycleToRoot)
      else if |roots| != 1 then Err(NoUniqueRoot)
      else
        var down := Levels(links, room, [Node(roots[0], [roots[0]], false)], |links| + 1);
        if HasCycle(down) then Err(CycleToTip)
        else if down == [] then Err(NoScope)
        else Ok(Review(roots[0], Ids(down)[|down| - 1], Ids(down)))
  }

  /** Row i is in the room of the row it supersedes. */
  ghost predicate KeepsRoom(links: Links, i: nat)
    requires Grounded(links) && i < |links|
  {
    links[i].up.Some? ==> links[links[i].up.value].room == links[i].room
  }

  /** What the query needs of the table: it follows from the table's invariant. */
  ghost predicate Threaded(links: Links) {
    && Grounded(links) && OneSuccessor(links)
    && forall i {:trigger KeepsRoom(links, i)} | 0 <= i < |links| :: KeepsRoom(links, i)
  }

  /** The ancestors query from n meets no cycle and has one row without a predecessor. */
  ghost predicate ClimbsTo(links: Links, room: nat, n: Node, steps: nat, root: nat) {
    var up := Ancestors(links, room, n, steps);
    !HasCycle(up) && RootsAmong(links, up) == [root]
  }

  ghost predicate Descending(n: Node) {
    !n.cycle && forall x | x in n.path :: n.id <= x
  }

  /** Climbing from a row meets no cycle and ends at the root of its lineage, and nowhere else. */
  lemma {:induction false} ClimbFindsRoot(links: Links, n: Node, steps: nat)
    requires Threaded(links) && n.id < |links| && n.id < steps && Descending(n)
    ensures ClimbsTo(links, links[n.id].room, n, steps, Root(links, n.id))
    ensures links[Root(links, n.id)].room == links[n.id].room
    decreases n.id
  {
    var room := links[n.id].room;
    if links[n.id].up.Some? {
      assert KeepsRoom(links, n.id);
      var above := Visit(n, links[n.id].up.value);
      ClimbFindsRoot(links, above, steps - 1);
    }
  }

  lemma {:induction false} NoChildren(links: Links, room: nat, n: Node, j: nat)
    requires Grounded(links) && forall k | j <= k < |links| :: links[k].up != Some(n.id)
    ensures Children(links, room, n, j) == []
    decreases |links| - j
  {
    if j < |links| { NoChildren(links, room, n, j + 1); }
  }

  lemma {:induction false} OneChild(links: Links, n: Node, j: nat, k: nat)
    requires Threaded(links) && n.id < |links| && !n.cycle && j <= k < |links| && links[k].up == Some(n.id)
    ensures Children(links, links[n.id].room, n, j) == [Visit(n, k)]
    decreases k - j
  {
    if j < k {
      assert links[j].up != links[k].up;
      OneChild(links, n, j + 1, k);
    } else {
      assert KeepsRoom(links, k);
      NoChildren(links, links[n.id].room, n, k + 1);
    }
  }

  /** The k-th id supersedes the one before it. */
  ghost predicate Supersedes(links: Links, ids: seq<nat>, k: nat) {
    0 < k < |ids| && ids[k] < |links| && links[ids[k]].up == Some(ids[k - 1])
  }

  /** The ids run from n down to a tip, each superseding the one before. */
  ghost predicate DownToTip(links: Links, n: nat, ids: seq<nat>) {
    && n < |links| && ids != [] && ids[0] == n
    && (forall k {:trigger Supersedes(links, ids, k)} | 0 < k < |ids| :: Supersedes(links, ids, k))
    && !HasSuccessor(links, ids[|ids| - 1])
  }

  /** The lineage query from n returns these ids, level by level, and meets no cycle. */
  ghost predicate LevelsAre(links: Links, room: nat, n: Node, steps: nat, ids: seq<nat>) {
    var down := Levels(links, room, [n], steps);
    !HasCycle(down) && Ids(down) == ids
  }

  lemma DescendOne(links: Links, room: nat, n: Node, steps: nat, ids: seq<nat>)
    requires Threaded(links) && n.id < |links| && links[n.id].room == room && !n.cycle && steps > 0
    requires DownToTip(links, n.id, ids) && |ids| > 1
    requires LevelsAre(links, room, Visit(n, ids[1]), steps - 1, ids[1..])
    ensures LevelsAre(links, room, n, steps, ids)
  {
    var child := Visit(n, ids[1]);
    assert Supersedes(links, ids, 1);
    OneChild(links, n, 0, child.id);
    assert ids == [n.id] + ids[1..];
  }

  lemma DescendNone(links: Links, room: nat, n: Node, steps: nat, ids: seq<nat>)
    requires Threaded(links) && n.id < |links| && !n.cycle && steps > 0 && DownToTip(links, n.id, ids) && |ids| == 1
    ensures LevelsAre(links, room, n, steps, ids)
  {
    NoChildren(links, room, n, 0);
    assert Ids([n]) == [n.id] == ids;
  }

  lemma DownOne(links: Links, n: nat, k: nat, ids: seq<nat>)
    requires n < |links| && k < |links| && links[k].up == Some(n) && DownToTip(links, k, ids)
    ensures DownToTip(links, n, [n] + ids)
  {
    var all := [n] + ids;
    forall j | 0 < j < |all| ensures Supersedes(links, all, j) {
      assert j > 1 ==> Supersedes(links, ids, j - 1);
    }
  }

  /** No id on the path so far exceeds the node's own. */
  ghost predicate Ascending(n: Node) {
    !n.cycle && forall x | x in n.path :: x <= n.id
  }

  lemma {:induction false} DescentEnds(links: Links, n: nat) returns (ids: seq<nat>)
    requires Grounded(links) && n < |links|
    ensures DownToTip(links, n, ids) && n + |ids| <= |links|
    decreases |links| - n
  {
    if HasSuccessor(links, n) {
      var k :| 0 <= k < |links| && links[k].up == Some(n);
      ids := DescentEnds(links, k);
      DownOne(links, n, k, ids);
      ids := [n] + ids;
    } else {
      ids := [n];
    }
  }

  lemma DownRest(links: Links, n: nat, ids: seq<nat>)
    requires Threaded(links) && DownToTip(links, n, ids) && |ids| > 1
    ensures n < ids[1] < |links| && links[ids[1]].room == links[n].room && DownToTip(links, ids[1], ids[1..])
  {
    assert Supersedes(links, ids, 1);
    assert KeepsRoom(links, ids[1]);
    forall k | 0 < k < |ids[1..]| ensures Supersedes(links, ids[1..], k) {
      assert Supersedes(links, ids, k + 1);
    }
  }

  /** Descending from a row follows the only successors there are, without a cycle, to the tip. */
  lemma {:induction false} DescentFindsTip(links: Links, room: nat, n: Node, steps: nat, ids: seq<nat>)
    requires Threaded(links) && n.id < |links| && links[n.id].room == room && Ascending(n)
    requires DownToTip(links, n.id, ids) && |ids| <= steps
    ensures LevelsAre(links, room, n, steps, ids)
    decreases |ids|
  {
    if |ids| > 1 {
      DownRest(links, n.id, ids);
      DescentFindsTip(links, room, Visit(n, ids[1]), steps - 1, ids[1..]);
      DescendOne(links, room, n, steps, ids);
    } else {
      DescendNone(links, room, n, steps, ids);
    }
  }

  /** Ids that run down from a root are the path to the last of them. */
  lemma {:induction false} DownIsPath(links: Links, ids: seq<nat>)
    requires Grounded(links) && ids != [] && ids[0] < |links| && links[ids[0]].up.None?
    requires forall k {:trigger Supersedes(links, ids, k)} | 0 < k < |ids| :: Supersedes(links, ids, k)
    ensures ids[|ids| - 1] < |links| && PathTo(links, ids[|ids| - 1]) == ids
  {
    if |ids| > 1 {
      var init := ids[..|ids| - 1];
      forall k | 0 < k < |init| ensures Supersedes(links, init, k) {
        assert Supersedes(links, ids, k);
      }
      DownIsPath(links, init);
      assert Supersedes(links, ids, |ids| - 1);
    }
  }

  lemma ReviewUnfolds(links: Links, room: nat, i: nat, root: nat, ids: seq<nat>)
    requires i < |links| && links[i].room == room
    requires ClimbsTo(links, room, Node(i, [i], false), |links| + 1, root)
    requires ids != [] && LevelsAre(links, room, Node(root, [root], false), |links| + 1, ids)
    ensures ReviewOf(links, room, i) == Ok(Review(root, ids[|ids| - 1], ids))
  {
  }

  /** The path from the root of i's lineage to its tip. */
  ghost predicate WholePath(links: Links, i: nat, ids: seq<nat>)
    requires Grounded(links) && i < |links|
  {
    && ids != [] && ids[|ids| - 1] < |links| && !HasSuccessor(links, ids[|ids| - 1])
    && ids == PathTo(links, ids[|ids| - 1]) && ids[0] == Root(links, i) && i in ids
  }

  lemma PathExists(links: Links, i: nat) returns (ids: seq<nat>)
    requires Grounded(links) && OneSuccessor(links) && i < |links|
    ensures WholePath(links, i, ids) && DownToTip(links, Root(links, i), ids) && |ids| <= |links|
  {
    RootIsRoot(links, i);
    ids := DescentEnds(links, Root(links, i));
    DownIsPath(links, ids);
    TipIsUnique(links, ids[|ids| - 1], i);
  }

  /** In a threaded table the review of any row is its whole lineage: it does not fail, it starts at
      the root, ends at the tip, and lists the path between them. */
  lemma ReviewFindsLineage(links: Links, i: nat)
    requires Threaded(links) && i < |links|
    ensures var r := ReviewOf(links, links[i].room, i);
            r.Ok? && WholePath(links, i, r.value.path)
            && r.value == Review(Root(links, i), r.value.path[|r.value.path| - 1], r.value.path)
  {
    var room, root := links[i].room, Root(links, i);
    var ids := PathExists(links, i);
    ClimbFindsRoot(links, Node(i, [i], false), |links| + 1);
    DescentFindsTip(links, room, Node(root, [root], false), |links| + 1, ids);
    ReviewUnfolds(links, room, i, root, ids);
  }

  lemma {:induction false} RootIsRoot(links: Links, i: nat)
    requires Grounded(links) && i < |links|
    ensures Root(links, i) < |links| && links[Root(links, i)].up.None?
            && PathTo(links, Root(links, i)) == [Root(links, i)]
  {
    if links[i].up.Some? { RootIsRoot(links, links[i].up.value); }
  }

  /** A lineage has one whole path. */
  lemma OneWholePath(links: Links, i: nat, j: nat, ids: seq<nat>, ids': seq<nat>)
    requires Grounded(links) && OneSuccessor(links) && i < |links| && j < |links| && Root(links, i) == Root(links, j)
    requires WholePath(links, i, ids) && WholePath(links, j, ids')
    ensures ids == ids'
  {
    TipIsUnique(links, ids[|ids| - 1], ids'[|ids'| - 1]);
  }
}
