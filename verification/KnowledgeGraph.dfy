/** Connected memories: a bounded search that marks nodes while it scans the rows of a round. */
module KnowledgeGraph {

  type Id = string

  datatype Kind = Memory | Message | Thread | Room | MemoryVersion

  datatype Edge = Edge(source: Id, sourceKind: Kind, target: Id, targetKind: Kind)

  // ---------------------------------------------------------------- distance

  /** The row leads from u to v, and calls v's end a memory. */
  predicate Leads(e: Edge, u: Id, v: Id) {
    (e.source == u && e.target == v && e.targetKind == Memory)
    || (e.target == u && e.source == v && e.sourceKind == Memory)
  }

  ghost predicate Linked(edges: set<Edge>, u: Id, v: Id) {
    exists e :: e in edges && Leads(e, u, v)
  }

  /** A walk along the edges. */
  ghost predicate Path(edges: set<Edge>, path: seq<Id>) {
    |path| > 1 ==>
      Linked(edges, path[|path| - 2], path[|path| - 1]) && Path(edges, path[..|path| - 1])
  }

  /** Some walk from the seed to v takes at most k steps. */
  ghost predicate Within(edges: set<Edge>, seed: Id, v: Id, k: int) {
    exists path :: IsRoute(edges, path, seed, v, k)
  }

  ghost predicate IsRoute(edges: set<Edge>, path: seq<Id>, seed: Id, v: Id, k: int) {
    1 <= |path| <= k + 1 && path[0] == seed && path[|path| - 1] == v && Path(edges, path)
  }

  lemma SeedIsWithin(edges: set<Edge>, seed: Id)
    ensures forall v :: Within(edges, seed, v, 0) <==> v == seed
  {
    assert IsRoute(edges, [seed], seed, seed, 0);
  }

  lemma OneStepFurther(edges: set<Edge>, seed: Id, u: Id, v: Id, k: nat)
    requires Within(edges, seed, u, k) && Linked(edges, u, v)
    ensures Within(edges, seed, v, k + 1)
  {
    var path :| IsRoute(edges, path, seed, u, k);
    var longer := path + [v];
    assert longer[..|longer| - 1] == path && longer[|longer| - 2] == u;
    assert IsRoute(edges, longer, seed, v, k + 1);
  }

  /** A walk of at most k + 1 steps is one of at most k, or such a one and a step. */
  lemma OneStepBack(edges: set<Edge>, seed: Id, v: Id, k: nat) returns (u: Id)
    requires Within(edges, seed, v, k + 1) && !Within(edges, seed, v, k)
    ensures Within(edges, seed, u, k) && Linked(edges, u, v)
  {
    var path :| IsRoute(edges, path, seed, v, k + 1);
    assert !IsRoute(edges, path, seed, v, k);
    u := path[|path| - 2];
    assert IsRoute(edges, path[..|path| - 1], seed, u, k);
  }

  lemma WithinGrows(edges: set<Edge>, seed: Id, v: Id, k: nat)
    requires Within(edges, seed, v, k)
    ensures Within(edges, seed, v, k + 1)
  {
    var path :| IsRoute(edges, path, seed, v, k);
    assert IsRoute(edges, path, seed, v, k + 1);
  }

  // ---------------------------------------------------------------- the search

  /** The rows a round selects: one end in the frontier, and one end a memory. */
  predicate Selected(e: Edge, frontier: seq<Id>) {
    (e.source in frontier || e.target in frontier) && (e.sourceKind == Memory || e.targetKind == Memory)
  }

  ghost predicate Answers(edges: set<Edge>, frontier: seq<Id>, rows: seq<Edge>) {
    forall e :: e in rows <==> e in edges && Selected(e, frontier)
  }

  /** The query of a round; the order of its rows is not specified. */
  method Fetch(edges: set<Edge>, frontier: seq<Id>) returns (rows: seq<Edge>)
    ensures Answers(edges, frontier, rows)
  {
    rows := [];
    var left := edges;
    while left != {}
      invariant left <= edges
      invariant forall e :: e in rows <==> e in edges - left && Selected(e, frontier)
      decreases left
    {
      var e :| e in left;
      left := left - {e};
      if Selected(e, frontier) {
        rows := rows + [e];
      }
    }
  }

  /** What a scan of rows finds from a frontier, beside what was visited before. */
  ghost predicate Found(rows: seq<Edge>, frontier: seq<Id>, v: Id) {
    exists e, u :: e in rows && u in frontier && Leads(e, u, v)
  }

  ghost predicate Discovered(rows: seq<Edge>, frontier: seq<Id>, before: set<Id>, v: Id) {
    v in before || Found(rows, frontier, v)
  }

  /** The outcome of a scan: everything discovered, and what of it is new. */
  ghost predicate Scanned(rows: seq<Edge>, frontier: seq<Id>, before: set<Id>, visited: set<Id>, next: seq<Id>) {
    && (forall v {:trigger v in visited} :: v in visited <==> Discovered(rows, frontier, before, v))
    && (forall v {:trigger v in next} :: v in next <==> v in visited && v !in before)
  }

  /**
   * One row against the ends visited so far. Whichever end the scan takes for the neighbour, it marks just the ends
   * the row leads to from the frontier.
   */
  lemma NeighbourEnd(e: Edge, frontier: seq<Id>, rows: seq<Edge>, before: set<Id>, visited: set<Id>, v: Id)
    requires Selected(e, frontier) && (forall u <- frontier :: u in before)
    requires forall w :: w in visited <==> Discovered(rows, frontier, before, w)
    ensures var neighbour := if e.source in visited then e.target else e.source;
            var kind := if e.source in visited then e.targetKind else e.sourceKind;
            (v in visited || (v == neighbour && kind == Memory)) <==> Discovered(rows + [e], frontier, before, v)
  {
    assert forall u <- frontier :: u in visited;
    if Found(rows, frontier, v) {
      var e', u :| e' in rows && u in frontier && Leads(e', u, v);
      assert e' in rows + [e];
    }
    var neighbour := if e.source in visited then e.target else e.source;
    var kind := if e.source in visited then e.targetKind else e.sourceKind;
    if v == neighbour && kind == Memory && v !in visited {
      var u := if e.source in visited then e.source else e.target;
      assert u in frontier && Leads(e, u, v) && e in rows + [e];
    }
    if Found(rows + [e], frontier, v) && v !in visited {
      var e', u :| e' in rows + [e] && u in frontier && Leads(e', u, v);
      assert e' !in rows;
    }
  }

  /** The scan of one round. It looks at `visited` while it adds to it. */
  method Scan(rows: seq<Edge>, frontier: seq<Id>, before: set<Id>) returns (visited: set<Id>, next: seq<Id>)
    requires forall e <- rows :: Selected(e, frontier)
    requires forall u <- frontier :: u in before
    ensures Scanned(rows, frontier, before, visited, next)
  {
    visited, next := before, [];
    for n := 0 to |rows|
      invariant Scanned(rows[..n], frontier, before, visited, next)
    {
      var row := rows[n];
      ghost var seen := visited;
      forall v ensures
          var neighbour := if row.source in seen then row.target else row.source;
          var kind := if row.source in seen then row.targetKind else row.sourceKind;
          (v in seen || (v == neighbour && kind == Memory)) <==> Discovered(rows[..n] + [row], frontier, before, v)
      {
        NeighbourEnd(row, frontier, rows[..n], before, seen, v);
      }
      assert rows[..n + 1] == rows[..n] + [row];
      var neighbour := if row.source in visited then row.target else row.source;
      var kind := if row.source in visited then row.targetKind else row.sourceKind;
      if neighbour !in visited && kind == Memory {
        visited := visited + {neighbour};
        next := next + [neighbour];
      }
    }
    assert rows[..|rows|] == rows;
  }

  /** After k rounds: who is visited, and that only the frontier still has neighbours to offer. */
  ghost predicate Explored(edges: set<Edge>, seed: Id, visited: set<Id>, frontier: seq<Id>, k: nat) {
    && (forall v :: v in visited <==> Within(edges, seed, v, k))
    && (forall u <- frontier :: u in visited)
    && (forall u, v {:trigger Linked(edges, u, v)} ::
          u in visited && u !in frontier && Linked(edges, u, v) ==> v in visited)
  }

  lemma RoundExplores(edges: set<Edge>, seed: Id, before: set<Id>, frontier: seq<Id>, rows: seq<Edge>,
                      visited: set<Id>, next: seq<Id>, k: nat)
    requires Explored(edges, seed, before, frontier, k)
    requires Answers(edges, frontier, rows) && Scanned(rows, frontier, before, visited, next)
    ensures Explored(edges, seed, visited, next, k + 1)
  {
    forall u, v | u in before && Linked(edges, u, v) ensures v in visited {
      if u in frontier {
        var e :| e in edges && Leads(e, u, v);
        assert e in rows;
        assert Found(rows, frontier, v);
      } else {
        assert v in before;
      }
    }
    forall v ensures v in visited <==> Within(edges, seed, v, k + 1) {
      if v in before {
        WithinGrows(edges, seed, v, k);
      } else if Found(rows, frontier, v) {
        var e, u :| e in rows && u in frontier && Leads(e, u, v);
        assert Linked(edges, u, v);
        OneStepFurther(edges, seed, u, v, k);
      }
      if Within(edges, seed, v, k + 1) && !Within(edges, seed, v, k) {
        var u := OneStepBack(edges, seed, v, k);
      }
    }
  }

  /** With nobody left to ask, further rounds find nobody. */
  lemma {:induction false} NothingFurther(edges: set<Edge>, seed: Id, visited: set<Id>, k: nat, n: nat)
    requires Explored(edges, seed, visited, [], k)
    ensures Explored(edges, seed, visited, [], k + n)
  {
    if n > 0 {
      NothingFurther(edges, seed, visited, k, n - 1);
      RoundExplores(edges, seed, visited, [], [], visited, [], k + n - 1);
    }
  }

  /** The memories found are those within `maxDepth` steps of the seed, in whatever order the rows come. */
  method ConnectedMemories(edges: set<Edge>, seed: Id, maxDepth: nat) returns (visited: set<Id>)
    ensures forall v :: v in visited <==> Within(edges, seed, v, maxDepth)
  {
    visited := {seed};
    var frontier := [seed];
    SeedIsWithin(edges, seed);
    for depth := 0 to maxDepth
      invariant Explored(edges, seed, visited, frontier, depth)
    {
      if frontier == [] {
        NothingFurther(edges, seed, visited, depth, maxDepth - depth);
        break;
      }
      var rows := Fetch(edges, frontier);
      ghost var before, asked := visited, frontier;
      visited, frontier := Scan(rows, frontier, visited);
      RoundExplores(edges, seed, before, asked, rows, visited, frontier, depth);
    }
  }

  // ---------------------------------------------------------------- the edges the view can hold

  /** A row of the tables behind the materialized view, in either of its two definitions. */
  datatype Row =
    | CitedMessage(memory: Id, message: Id)
    | CitedThread(memory: Id, thread: Id)
    | CitedRoom(memory: Id, room: Id)
    | CitedNothing(memory: Id)
    | Fork(parent: Id, child: Id)
    | Reply(message: Id, earlier: Id)
    | Mention(message: Id, memory: Id)
    | Crystallized(message: Id, memory: Id)
    | Evolution(memory: Id)

  /** The row's foreign keys name rows of the right tables, and an identifier belongs to one table only. */
  predicate WellKeyed(row: Row, kindOf: Id -> Kind) {
    match row
    case CitedMessage(m, t) => kindOf(m) == Memory && kindOf(t) == Message
    case CitedThread(m, t) => kindOf(m) == Memory && kindOf(t) == Thread
    case CitedRoom(m, t) => kindOf(m) == Memory && kindOf(t) == Room
    case CitedNothing(m) => kindOf(m) == Memory
    case Fork(p, c) => kindOf(p) == Thread && kindOf(c) == Thread
    case Reply(m, t) => kindOf(m) == Message && kindOf(t) == Message
    case Mention(s, m) => kindOf(s) == Message && kindOf(m) == Memory
    case Crystallized(s, m) => kindOf(s) == Message && kindOf(m) == Memory
    case Evolution(m) => kindOf(m) == Memory
  }

  function EdgeOf(row: Row): Edge {
    match row
    case CitedMessage(m, t) => Edge(m, Memory, t, Message)
    case CitedThread(m, t) => Edge(m, Memory, t, Thread)
    case CitedRoom(m, t) => Edge(m, Memory, t, Room)
    case CitedNothing(m) => Edge(m, Memory, m, Memory)
    case Fork(p, c) => Edge(p, Thread, c, Thread)
    case Reply(m, t) => Edge(m, Message, t, Message)
    case Mention(s, m) => Edge(s, Message, m, Memory)
    case Crystallized(s, m) => Edge(s, Message, m, Memory)
    case Evolution(m) => Edge(m, Memory, m, MemoryVersion)
  }

  function View(rows: set<Row>): set<Edge> {
    set row | row in rows :: EdgeOf(row)
  }

  /** Along the view's edges a search that starts at a memory never leaves it, at any depth. */
  lemma {:induction false} ViewConnectsNothing(rows: set<Row>, kindOf: Id -> Kind, seed: Id, k: nat)
    requires (forall row <- rows :: WellKeyed(row, kindOf)) && kindOf(seed) == Memory
    ensures forall v :: Within(View(rows), seed, v, k) <==> v == seed
    decreases k
  {
    var edges := View(rows);
    SeedIsWithin(edges, seed);
    if k > 0 {
      ViewConnectsNothing(rows, kindOf, seed, k - 1);
      WithinGrows(edges, seed, seed, k - 1);
      forall v | Within(edges, seed, v, k) ensures v == seed {
        if !Within(edges, seed, v, k - 1) {
          var u := OneStepBack(edges, seed, v, k - 1);
        }
      }
    }
  }

  // ---------------------------------------------------------------- routes in fields

  /** Some edge has u at one end and v at the other, and calls v's end a memory. */
  ghost predicate JoinedTo(edges: set<Edge>, u: Id, v: Id) {
    exists e :: e in edges && ((e.source == u && e.target == v && e.targetKind == Memory)
                               || (e.target == u && e.source == v && e.sourceKind == Memory))
  }

  ghost predicate Joined(edges: set<Edge>, path: seq<Id>) {
    forall i {:trigger path[i]} | 0 < i < |path| :: JoinedTo(edges, path[i - 1], path[i])
  }

  /** Being within k steps is having a route of at most k + 1 nodes along such edges, in either direction. */
  lemma WithinInFields(edges: set<Edge>, seed: Id, v: Id, k: nat)
    ensures Within(edges, seed, v, k) <==>
            exists path: seq<Id> ::
              1 <= |path| <= k + 1 && path[0] == seed && path[|path| - 1] == v && Joined(edges, path)
  {
    if path :| IsRoute(edges, path, seed, v, k) { PathInFields(edges, path); }
    if path: seq<Id> :| 1 <= |path| <= k + 1 && path[0] == seed && path[|path| - 1] == v && Joined(edges, path) {
      PathInFields(edges, path);
      assert IsRoute(edges, path, seed, v, k);
    }
  }

  lemma {:induction false} PathInFields(edges: set<Edge>, path: seq<Id>)
    ensures Path(edges, path) <==> Joined(edges, path)
  {
    if |path| > 1 {
      PathInFields(edges, path[..|path| - 1]);
      JoinedIsLinked(edges, path[|path| - 2], path[|path| - 1]);
      LastJoined(edges, path);
    }
  }

  lemma LastJoined(edges: set<Edge>, path: seq<Id>)
    requires |path| > 1
    ensures Joined(edges, path) <==>
            JoinedTo(edges, path[|path| - 2], path[|path| - 1]) && Joined(edges, path[..|path| - 1])
  {
    var init := path[..|path| - 1];
    if Joined(edges, path) {
      forall i | 0 < i < |init| ensures JoinedTo(edges, init[i - 1], init[i]) {
        assert init[i] == path[i];
      }
    }
    if JoinedTo(edges, path[|path| - 2], path[|path| - 1]) && Joined(edges, init) {
      forall i | 0 < i < |path| ensures JoinedTo(edges, path[i - 1], path[i]) {
        assert i < |init| ==> init[i] == path[i] && init[i - 1] == path[i - 1];
      }
    }
  }

  lemma JoinedIsLinked(edges: set<Edge>, u: Id, v: Id)
    ensures Linked(edges, u, v) <==> JoinedTo(edges, u, v)
  {
    if e :| e in edges && Leads(e, u, v) { assert JoinedTo(edges, u, v); }
    if e :| e in edges && ((e.source == u && e.target == v && e.targetKind == Memory)
                           || (e.target == u && e.source == v && e.sourceKind == Memory)) {
      assert Leads(e, u, v);
    }
  }
}
