/**
 Field marks as their readers see them: review states, lineage anchors and the room projection. Times are non-negative
 instants; ids are compared as the canonical text of a UUID is, so they are modelled by their rank.
 */
module FieldMarks {
  import opened Common

  datatype Action = Confirm | Contest | Correct | Supersede | Split | Merge

  datatype Mark =
    | Relation(id: nat, room: nat, created: nat, supersedes: Option<nat>, causedBy: Option<nat>, key: string)
    | Review(id: nat, room: nat, created: nat, target: nat, action: Action)

  datatype State = Provisional | Confirmed | Contested | Superseded

  type Table = seq<Mark>

  function Up(m: Mark): Option<nat> { if m.Relation? then m.supersedes else None }

  predicate Retires(a: Action) { a in {Supersede, Correct, Split, Merge} }

  // ---- the derived review state --------------------------------------------------------------------

  /** Order by (created_at, id). */
  predicate Before(a: Mark, b: Mark) {
    a.created < b.created || (a.created == b.created && a.id < b.id)
  }

  /** The last review in that order. */
  function Latest(reviews: seq<Mark>): (m: Option<Mark>)
    ensures m.None? <==> reviews == []
    ensures m.Some? ==> m.value in reviews && forall r | r in reviews :: !Before(m.value, r)
  {
    if reviews == [] then None
    else
      var init, last := reviews[..|reviews| - 1], reviews[|reviews| - 1];
      assert reviews == init + [last];
      var m := Latest(init);
      if m.Some? && Before(last, m.value) then m else Some(last)
  }

  function Derive(hasSuccessor: bool, reviews: seq<Mark>): State
    requires forall r | r in reviews :: r.Review?
  {
    var latest := Latest(reviews);
    if hasSuccessor || (latest.Some? && Retires(latest.value.action)) then Superseded
    else if latest.Some? && latest.value.action == Confirm then Confirmed
    else if latest.Some? && latest.value.action == Contest then Contested
    else Provisional
  }

  predicate IdsDistinct(rows: Table) {
    forall i, j {:trigger IdsDiffer(rows, i, j)} | 0 <= i < j < |rows| :: IdsDiffer(rows, i, j)
  }

  predicate IdsDiffer(rows: Table, i: int, j: int)
    requires 0 <= i < |rows| && 0 <= j < |rows|
  {
    rows[i].id != rows[j].id
  }

  predicate IsReviewOf(m: Mark, id: nat) { m.Review? && m.target == id }

  predicate IsSuccessorOf(m: Mark, id: nat) { m.Relation? && m.supersedes == Some(id) }

  function ReviewsIn(rows: Table, id: nat): (reviews: seq<Mark>)
    ensures forall r :: r in reviews <==> r in rows && IsReviewOf(r, id)
  {
    if rows == [] then []
    else
      var init, last := rows[..|rows| - 1], rows[|rows| - 1];
      assert rows == init + [last];
      if IsReviewOf(last, id) then ReviewsIn(init, id) + [last] else ReviewsIn(init, id)
  }

  predicate HasSuccessor(rows: Table, id: nat) {
    exists m :: m in rows && IsSuccessorOf(m, id)
  }

  /** The state by targeted queries over the whole table, as the write door reads it. */
  function StateIn(rows: Table, id: nat): State {
    Derive(HasSuccessor(rows, id), ReviewsIn(rows, id))
  }

  /** Marks of one table are equal as soon as their ids are. */
  ghost predicate IdsDecide(reviews: seq<Mark>) {
    forall a, b | a in reviews && b in reviews :: a.id == b.id ==> a == b
  }

  /** The state depends on which reviews there are, not on the order in which they are listed. */
  lemma DeriveIgnoresOrder(hasSuccessor: bool, reviews: seq<Mark>, reviews': seq<Mark>)
    requires forall r | r in reviews :: r.Review?
    requires forall r :: r in reviews <==> r in reviews'
    requires IdsDecide(reviews)
    ensures Derive(hasSuccessor, reviews) == Derive(hasSuccessor, reviews')
  {
    assert reviews == [] || reviews[0] in reviews';
    assert reviews' == [] || reviews'[0] in reviews;
    if reviews != [] {
      var a, b := Latest(reviews).value, Latest(reviews').value;
      assert !Before(a, b) && !Before(b, a);
      assert a.id == b.id;
    }
  }

  // ---- the capped window agrees with the whole table -------------------------------------------------

  /** What ORDER BY created_at DESC LIMIT cap may return for a room; ties are cut arbitrarily. */
  ghost predicate IsWindow(window: Table, rows: Table, room: nat, cap: nat) {
    && IdsDistinct(window) && |window| <= cap
    && (forall w | w in window :: w in rows && w.room == room)
    && (forall i, j | 0 <= i < j < |window| :: window[j].created <= window[i].created)
    && (forall r | r in rows && r.room == room && r !in window ::
          |window| == cap && forall w | w in window :: r.created <= w.created)
  }

  lemma LaterRowsStay(window: Table, rows: Table, room: nat, cap: nat, m: Mark, r: Mark)
    requires IsWindow(window, rows, room, cap) && m in window && r.room == room && m.created < r.created
    ensures r in window <==> r in rows
  {
  }

  /** Reviews and successors of a mark are in its room, and the mark is not its own successor. */
  ghost predicate PointedAtInRoom(rows: Table, m: Mark) {
    && !IsSuccessorOf(m, m.id)
    && forall r | r in rows && (IsReviewOf(r, m.id) || IsSuccessorOf(r, m.id)) :: r.room == m.room
  }

  /** Some successor of the mark is stamped strictly after it. */
  ghost predicate LaterSuccessor(rows: Table, m: Mark) {
    exists s :: s in rows && IsSuccessorOf(s, m.id) && m.created < s.created
  }

  /** The last review of the mark is stamped strictly after it. */
  predicate LaterReview(rows: Table, m: Mark) {
    var latest := Latest(ReviewsIn(rows, m.id));
    latest.Some? && m.created < latest.value.created
  }

  /**
   What decides the mark's state is stamped strictly after it: a successor, or a last review that retires
   it, or any last review where there is no successor. Where nothing was said of the mark, nothing decides.
   */
  ghost predicate DecidedLater(rows: Table, m: Mark) {
    || LaterSuccessor(rows, m)
    || (LaterReview(rows, m) && (!HasSuccessor(rows, m.id) || Retires(Latest(ReviewsIn(rows, m.id)).value.action)))
    || (!HasSuccessor(rows, m.id) && ReviewsIn(rows, m.id) == [])
  }

  ghost predicate AgreesInEveryWindow(rows: Table, m: Mark) {
    forall window, cap {:trigger IsWindow(window, rows, m.room, cap)}
      | IsWindow(window, rows, m.room, cap) && m in window :: StateIn(window, m.id) == StateIn(rows, m.id)
  }

  /** Of two lists of reviews, the last of the larger is the last of the smaller if it is there. */
  lemma SameLatest(reviews: seq<Mark>, fewer: seq<Mark>)
    requires IdsDecide(reviews) && forall r | r in fewer :: r in reviews
    requires reviews != [] && Latest(reviews).value in fewer
    ensures Latest(fewer) == Latest(reviews)
  {
    var a, b := Latest(reviews).value, Latest(fewer).value;
    assert !Before(a, b) && !Before(b, a);
  }

  /** However much of the history the cap drops, a mark decided later that is still in the window reads the same. */
  lemma WindowAgrees(window: Table, rows: Table, room: nat, cap: nat, m: Mark)
    requires IsWindow(window, rows, room, cap) && m in window && IdsDecide(rows)
    requires PointedAtInRoom(rows, m) && DecidedLater(rows, m)
    ensures StateIn(window, m.id) == StateIn(rows, m.id)
  {
    var all, kept := ReviewsIn(rows, m.id), ReviewsIn(window, m.id);
    assert HasSuccessor(window, m.id) ==> HasSuccessor(rows, m.id);
    if LaterSuccessor(rows, m) {
      var s :| s in rows && IsSuccessorOf(s, m.id) && m.created < s.created;
      LaterRowsStay(window, rows, room, cap, m, s);
    } else if LaterReview(rows, m) {
      LaterRowsStay(window, rows, room, cap, m, Latest(all).value);
      SameLatest(all, kept);
    } else {
      assert forall r :: r in kept ==> r in all;
    }
  }

  lemma OldestOf(s: set<Mark>) returns (m: Mark)
    requires s != {}
    ensures m in s && forall x | x in s :: m.created <= x.created
  {
    m :| m in s;
    if s != {m} {
      var other := OldestOf(s - {m});
      if other.created < m.created { m := other; }
    }
  }

  /** Any set of rows of one table can be listed newest first. */
  lemma {:induction false} NewestFirst(s: set<Mark>) returns (listed: Table)
    requires forall a, b | a in s && b in s :: a.id == b.id ==> a == b
    ensures IdsDistinct(listed) && |listed| == |s| && forall x :: x in listed <==> x in s
    ensures forall i, j | 0 <= i < j < |listed| :: listed[j].created <= listed[i].created
  {
    listed := [];
    if s != {} {
      var oldest := OldestOf(s);
      var newer := NewestFirst(s - {oldest});
      listed := newer + [oldest];
      forall i, j | 0 <= i < j < |listed| ensures IdsDiffer(listed, i, j) {
        assert if j < |newer| then IdsDiffer(newer, i, j) else newer[i] in s - {oldest};
      }
      forall i | 0 <= i < |newer| ensures oldest.created <= newer[i].created {
        assert newer[i] in s;
      }
    }
  }

  /** The window that the cap leaves when it cuts just behind a mark, ahead of the rows stamped with it. */
  lemma CutBehind(rows: Table, m: Mark) returns (window: Table, cap: nat)
    requires IdsDecide(rows) && m in rows
    ensures IsWindow(window, rows, m.room, cap)
    ensures forall r :: r in window <==> r == m || (r in rows && r.room == m.room && m.created < r.created)
  {
    window := NewestFirst({m} + set r | r in rows && r.room == m.room && m.created < r.created);
    cap := |window|;
  }

  /** Where it is not decided later, that window shows it otherwise. */
  lemma CutBehindDisagrees(window: Table, rows: Table, m: Mark)
    requires IdsDecide(rows) && PointedAtInRoom(rows, m) && !DecidedLater(rows, m)
    requires forall r :: r in window <==> r == m || (r in rows && r.room == m.room && m.created < r.created)
    requires m in rows && !IsReviewOf(m, m.id)
    ensures StateIn(window, m.id) != StateIn(rows, m.id)
  {
    var all, kept := ReviewsIn(rows, m.id), ReviewsIn(window, m.id);
    assert !HasSuccessor(window, m.id);
    if kept != [] {
      assert kept[0] in all && m.created < kept[0].created;
      assert LaterReview(rows, m) && Latest(all).value in window;
      SameLatest(all, kept);
    }
  }

  /** A mark reads the same in every capped window that holds it exactly if what decides it is stamped after it. */
  lemma WindowsAgreeExactly(rows: Table, m: Mark)
    requires IdsDecide(rows) && m in rows && PointedAtInRoom(rows, m) && !IsReviewOf(m, m.id)
    ensures AgreesInEveryWindow(rows, m) <==> DecidedLater(rows, m)
  {
    if DecidedLater(rows, m) {
      forall window, cap | IsWindow(window, rows, m.room, cap) && m in window
        ensures StateIn(window, m.id) == StateIn(rows, m.id)
      {
        WindowAgrees(window, rows, m.room, cap, m);
      }
    } else {
      var window, cap := CutBehind(rows, m);
      CutBehindDisagrees(window, rows, m);
    }
  }

  // ---- the anchor that orders a lineage ------------------------------------------------------------------

  type ById = map<nat, Mark>

  /** Follow supersedes_id inside the window; `seen` stops a cycle. */
  function RootFrom(byId: ById, current: Mark, seen: set<nat>): Mark
    decreases byId.Keys - seen
  {
    var next := Up(current);
    if next.Some? && next.value in byId && next.value !in seen
    then RootFrom(byId, byId[next.value], seen + {next.value})
    else current
  }

  function Root(byId: ById, id: nat): Mark
    requires id in byId
  {
    RootFrom(byId, byId[id], {id})
  }

  method RootAnchor(id: nat, byId: ById) returns (current: Mark)
    requires id in byId
    ensures current == Root(byId, id)
  {
    var seen := {id};
    current := byId[id];
    var next := Up(current);
    while next.Some? && next.value in byId && next.value !in seen
      invariant next == Up(current)
      invariant RootFrom(byId, current, seen) == Root(byId, id)
      decreases byId.Keys - seen
    {
      seen := seen + {next.value};
      current := byId[next.value];
      next := Up(current);
    }
  }

  // ---- the room projection -----------------------------------------------------------------------------

  datatype Key = Key(rootCreated: nat, rootId: nat, created: nat, id: nat)

  predicate Less(a: Key, b: Key) {
    if a.rootCreated != b.rootCreated then a.rootCreated < b.rootCreated
    else if a.rootId != b.rootId then a.rootId < b.rootId
    else if a.created != b.created then a.created < b.created
    else a.id < b.id
  }

  datatype Entry = Entry(key: Key, mark: Mark, state: State)

  function KeyOf(byId: ById, m: Mark): Key
    requires m.id in byId
  {
    var root := Root(byId, m.id);
    Key(root.created, root.id, m.created, m.id)
  }

  function Index(rows: Table): (byId: ById)
    ensures forall m | m in rows :: m.id in byId
    ensures forall id | id in byId :: byId[id] in rows && byId[id].id == id
    ensures IdsDistinct(rows) ==> forall m | m in rows :: byId[m.id] == m
  {
    if rows == [] then map[]
    else
      var init, last := rows[..|rows| - 1], rows[|rows| - 1];
      assert rows == init + [last];
      assert IdsDistinct(rows) ==> IdsDistinct(init) && forall k | 0 <= k < |init| :: init[k].id != last.id by {
        if IdsDistinct(rows) { InitDistinct(rows); }
      }
      Index(init)[last.id := last]
  }

  lemma InitDistinct(rows: Table)
    requires IdsDistinct(rows) && rows != []
    ensures var init, last := rows[..|rows| - 1], rows[|rows| - 1];
            IdsDistinct(init) && forall k | 0 <= k < |init| :: init[k].id != last.id
  {
    var init := rows[..|rows| - 1];
    forall i, j | 0 <= i < j < |init| ensures IdsDiffer(init, i, j) {
      assert IdsDiffer(rows, i, j);
    }
    forall k | 0 <= k < |init| ensures init[k].id != rows[|rows| - 1].id {
      assert IdsDiffer(rows, k, |rows| - 1);
    }
  }

  function Insert(sorted: seq<Entry>, e: Entry): (r: seq<Entry>)
    ensures multiset(r) == multiset(sorted) + multiset{e}
  {
    if sorted == [] || Less(e.key, sorted[0].key) then [e] + sorted
    else
      assert sorted == [sorted[0]] + sorted[1..];
      [sorted[0]] + Insert(sorted[1..], e)
  }

  ghost predicate Sorted(es: seq<Entry>) {
    forall i, j {:trigger InOrder(es, i, j)} | 0 <= i < j < |es| :: InOrder(es, i, j)
  }

  ghost predicate InOrder(es: seq<Entry>, i: int, j: int)
    requires 0 <= i < |es| && 0 <= j < |es|
  {
    !Less(es[j].key, es[i].key)
  }

  lemma SortedTail(es: seq<Entry>)
    requires Sorted(es) && es != []
    ensures Sorted(es[1..]) && forall k | 0 <= k < |es| - 1 :: !Less(es[1..][k].key, es[0].key)
  {
    forall i, j | 0 <= i < j < |es| - 1 ensures InOrder(es[1..], i, j) {
      assert InOrder(es, i + 1, j + 1);
    }
    forall k | 0 <= k < |es| - 1 ensures !Less(es[1..][k].key, es[0].key) {
      assert InOrder(es, 0, k + 1);
    }
  }

  lemma SortedFront(e: Entry, es: seq<Entry>)
    requires Sorted(es) && forall k | 0 <= k < |es| :: !Less(es[k].key, e.key)
    ensures Sorted([e] + es)
  {
    var all := [e] + es;
    forall i, j | 0 <= i < j < |all| ensures InOrder(all, i, j) {
      assert i > 0 ==> InOrder(es, i - 1, j - 1);
    }
  }

  lemma {:induction false} InsertSorts(sorted: seq<Entry>, e: Entry)
    requires Sorted(sorted)
    ensures Sorted(Insert(sorted, e))
  {
    if sorted != [] {
      SortedTail(sorted);
      var rest := sorted[1..];
      if Less(e.key, sorted[0].key) {
        assert sorted == [sorted[0]] + rest;
        SortedFront(e, sorted);
      } else {
        InsertSorts(rest, e);
        var r := Insert(rest, e);
        forall k | 0 <= k < |r| ensures !Less(r[k].key, sorted[0].key) {
          assert r[k] in multiset(r);
          assert r[k] == e || r[k] in rest;
        }
        SortedFront(sorted[0], r);
      }
    }
  }

  lemma InsertMembers(sorted: seq<Entry>, e: Entry, x: Entry)
    ensures x in Insert(sorted, e) <==> x == e || x in sorted
  {
    assert x in Insert(sorted, e) <==> x in multiset(Insert(sorted, e));
    assert x in sorted <==> x in multiset(sorted);
  }

  ghost predicate MarksDistinct(es: seq<Entry>) {
    forall i, j {:trigger MarksDiffer(es, i, j)} | 0 <= i < j < |es| :: MarksDiffer(es, i, j)
  }

  ghost predicate MarksDiffer(es: seq<Entry>, i: int, j: int)
    requires 0 <= i < |es| && 0 <= j < |es|
  {
    es[i].mark != es[j].mark
  }

  lemma DistinctTail(es: seq<Entry>)
    requires MarksDistinct(es) && es != []
    ensures MarksDistinct(es[1..]) && forall x | x in es[1..] :: x.mark != es[0].mark
  {
    forall i, j | 0 <= i < j < |es| - 1 ensures MarksDiffer(es[1..], i, j) {
      assert MarksDiffer(es, i + 1, j + 1);
    }
    forall x | x in es[1..] ensures x.mark != es[0].mark {
      var k :| 0 <= k < |es| - 1 && es[1..][k] == x;
      assert MarksDiffer(es, 0, k + 1);
    }
  }

  lemma DistinctFront(e: Entry, es: seq<Entry>)
    requires MarksDistinct(es) && forall x | x in es :: x.mark != e.mark
    ensures MarksDistinct([e] + es)
  {
    var all := [e] + es;
    forall i, j | 0 <= i < j < |all| ensures MarksDiffer(all, i, j) {
      assert if i > 0 then MarksDiffer(es, i - 1, j - 1) else all[j] in es;
    }
  }

  lemma {:induction false} InsertKeepsDistinct(sorted: seq<Entry>, e: Entry)
    requires MarksDistinct(sorted) && forall x | x in sorted :: x.mark != e.mark
    ensures MarksDistinct(Insert(sorted, e))
  {
    if sorted == [] || Less(e.key, sorted[0].key) {
      DistinctFront(e, sorted);
    } else {
      var rest := sorted[1..];
      DistinctTail(sorted);
      InsertKeepsDistinct(rest, e);
      forall x | x in Insert(rest, e) ensures x.mark != sorted[0].mark {
        InsertMembers(rest, e, x);
      }
      DistinctFront(sorted[0], Insert(rest, e));
    }
  }

  /** What the projection promises: one entry for each relation row, its state derived inside the
      window, in the order of the keys. */
  ghost predicate Projects(entries: seq<Entry>, window: Table) {
    && Sorted(entries) && MarksDistinct(entries)
    && (forall e | e in entries :: e.mark in window && e.mark.Relation? && e == EntryFor(window, e.mark))
    && (forall m {:trigger EntryFor(window, m)} | m in window && m.Relation? :: EntryFor(window, m) in entries)
  }

  function EntryFor(window: Table, m: Mark): Entry
    requires m in window
  {
    Entry(KeyOf(Index(window), m), m, StateIn(window, m.id))
  }

  function Group(byTarget: map<nat, seq<Mark>>, id: nat): seq<Mark> {
    if id in byTarget then byTarget[id] else []
  }

  ghost predicate Grouped(byTarget: map<nat, seq<Mark>>, rows: Table) {
    forall id {:trigger Group(byTarget, id)} :: Group(byTarget, id) == ReviewsIn(rows, id)
  }

  ghost predicate IsSuperseded(superseded: set<nat>, rows: Table) {
    forall id {:trigger HasSuccessor(rows, id)} :: id in superseded <==> HasSuccessor(rows, id)
  }

  lemma GroupNext(byTarget: map<nat, seq<Mark>>, superseded: set<nat>, rows: Table, m: Mark)
    requires Grouped(byTarget, rows) && IsSuperseded(superseded, rows)
    ensures Grouped(if m.Review? then byTarget[m.target := Group(byTarget, m.target) + [m]] else byTarget, rows + [m])
    ensures IsSuperseded(if Up(m).Some? then superseded + {Up(m).value} else superseded, rows + [m])
  {
    var byTarget' := if m.Review? then byTarget[m.target := Group(byTarget, m.target) + [m]] else byTarget;
    forall id ensures Group(byTarget', id) == ReviewsIn(rows + [m], id) {
      assert Group(byTarget, id) == ReviewsIn(rows, id);
    }
    forall id ensures HasSuccessor(rows + [m], id) <==> HasSuccessor(rows, id) || IsSuccessorOf(m, id) {
      SuccessorOfAppend(rows, m, id);
    }
  }

  lemma TakeOneMore(rows: Table, i: nat)
    requires i < |rows|
    ensures rows[..i + 1] == rows[..i] + [rows[i]]
  {
  }

  /** The first pass over the window: rows by id, reviews by target, superseded ids. */
  method GroupRows(window: Table) returns (byId: ById, byTarget: map<nat, seq<Mark>>, superseded: set<nat>)
    ensures byId == Index(window) && Grouped(byTarget, window) && IsSuperseded(superseded, window)
  {
    byId, byTarget, superseded := Index(window), map[], {};
    for i := 0 to |window|
      invariant Grouped(byTarget, window[..i]) && IsSuperseded(superseded, window[..i])
    {
      var row := window[i];
      TakeOneMore(window, i);
      GroupNext(byTarget, superseded, window[..i], row);
      if row.Review? {
        byTarget := byTarget[row.target := Group(byTarget, row.target) + [row]];
      } else if row.supersedes.Some? {
        superseded := superseded + {row.supersedes.value};
      }
    }
    assert window[..|window|] == window;
  }

  lemma SuccessorOfAppend(rows: Table, m: Mark, id: nat)
    ensures HasSuccessor(rows + [m], id) <==> HasSuccessor(rows, id) || IsSuccessorOf(m, id)
  {
    if HasSuccessor(rows, id) {
      var s :| s in rows && IsSuccessorOf(s, id);
      assert s in rows + [m];
    }
    if IsSuccessorOf(m, id) {
      assert m in rows + [m];
    }
  }

  /** The entries are exactly those of the relation rows among `rows`. */
  ghost predicate EntriesOf(entries: seq<Entry>, window: Table, rows: Table)
    requires forall m | m in rows :: m in window
  {
    && (forall e | e in entries :: e.mark in rows && e.mark.Relation? && e == EntryFor(window, e.mark))
    && (forall m {:trigger EntryFor(window, m)} | m in rows && m.Relation? :: EntryFor(window, m) in entries)
  }

  lemma EntriesOfNext(entries: seq<Entry>, window: Table, rows: Table, row: Mark)
    requires row in window && forall m | m in rows :: m in window
    requires EntriesOf(entries, window, rows)
    ensures EntriesOf(if row.Relation? then Insert(entries, EntryFor(window, row)) else entries, window, rows + [row])
  {
    if row.Relation? {
      forall x ensures x in Insert(entries, EntryFor(window, row)) <==> x == EntryFor(window, row) || x in entries {
        InsertMembers(entries, EntryFor(window, row), x);
      }
    }
  }

  /** The projection of the first i rows of the window. */
  ghost predicate ProjectsUpTo(entries: seq<Entry>, window: Table, i: nat)
    requires i <= |window|
  {
    Sorted(entries) && MarksDistinct(entries) && EntriesOf(entries, window, window[..i])
  }

  lemma ProjectNext(entries: seq<Entry>, window: Table, i: nat)
    requires IdsDistinct(window) && i < |window| && ProjectsUpTo(entries, window, i)
    ensures ProjectsUpTo(if window[i].Relation? then Insert(entries, EntryFor(window, window[i])) else entries,
                         window, i + 1)
  {
    TakeOneMore(window, i);
    EntriesOfNext(entries, window, window[..i], window[i]);
    if window[i].Relation? {
      InsertSorts(entries, EntryFor(window, window[i]));
      forall x | x in entries ensures x.mark != window[i] {
        var k :| 0 <= k < i && window[k] == x.mark;
        assert IdsDiffer(window, k, i);
      }
      InsertKeepsDistinct(entries, EntryFor(window, window[i]));
    }
  }

  /** The room projection over the rows that the capped query returned. */
  method Build(window: Table) returns (entries: seq<Entry>)
    requires IdsDistinct(window)
    ensures Projects(entries, window)
  {
    var byId, byTarget, superseded := GroupRows(window);
    entries := [];
    for i := 0 to |window|
      invariant ProjectsUpTo(entries, window, i)
    {
      ProjectNext(entries, window, i);
      var row := window[i];
      if row.Relation? {
        var root := RootAnchor(row.id, byId);
        var key := Key(root.created, root.id, row.created, row.id);
        assert Group(byTarget, row.id) == ReviewsIn(window, row.id);
        assert row.id in superseded <==> HasSuccessor(window, row.id);
        entries := Insert(entries, Entry(key, row, Derive(row.id in superseded, Group(byTarget, row.id))));
      }
    }
    assert window[..|window|] == window;
  }

  /** Every window of distinct rows has a projection. */
  lemma ProjectionExists(window: Table) returns (entries: seq<Entry>)
    requires IdsDistinct(window)
    ensures Projects(entries, window)
  {
    entries := [];
    for i := 0 to |window|
      invariant ProjectsUpTo(entries, window, i)
    {
      ProjectNext(entries, window, i);
      entries := if window[i].Relation? then Insert(entries, EntryFor(window, window[i])) else entries;
    }
    assert window[..|window|] == window;
  }

  // ---- lineages in the projection --------------------------------------------------------------------------

  /** Along supersedes_id some rank falls, so that no walk comes back to where it was. */
  ghost predicate Ranked(byId: ById, rank: nat -> nat) {
    && (forall id | id in byId :: byId[id].id == id)
    && (forall id | id in byId && Up(byId[id]).Some? && Up(byId[id]).value in byId ::
          rank(Up(byId[id]).value) < rank(id))
  }

  /** Then the cycle guard never fires: the anchor of a mark is its predecessor's. */
  lemma {:induction false} RootIgnoresSeen(byId: ById, rank: nat -> nat, current: Mark, seen: set<nat>, seen': set<nat>)
    requires Ranked(byId, rank) && current.id in byId && byId[current.id] == current
    requires forall id | id in seen && id in byId :: rank(current.id) <= rank(id)
    requires forall id | id in seen' && id in byId :: rank(current.id) <= rank(id)
    ensures RootFrom(byId, current, seen) == RootFrom(byId, current, seen')
    decreases rank(current.id)
  {
    var next := Up(current);
    if next.Some? && next.value in byId {
      RootIgnoresSeen(byId, rank, byId[next.value], seen + {next.value}, seen' + {next.value});
    }
  }

  lemma RootOfPredecessor(byId: ById, rank: nat -> nat, id: nat)
    requires Ranked(byId, rank) && id in byId && Up(byId[id]).Some? && Up(byId[id]).value in byId
    ensures Root(byId, id) == Root(byId, Up(byId[id]).value)
  {
    var next := Up(byId[id]).value;
    RootIgnoresSeen(byId, rank, byId[next], {id, next}, {next});
    assert {id} + {next} == {id, next};
  }

  /** `a` is what `b` replaced after n steps back inside the window. */
  ghost predicate Replaced(byId: ById, a: nat, b: nat, n: nat)
    decreases n
  {
    b in byId && if n == 0 then a == b else Up(byId[b]).Some? && Replaced(byId, a, Up(byId[b]).value, n - 1)
  }

  /** `a` is `b` or one of the marks that `b` replaced, directly or not, inside the window. */
  ghost predicate Ancestor(byId: ById, a: nat, b: nat) {
    exists n :: Replaced(byId, a, b, n)
  }

  lemma {:induction false} AncestorSharesRoot(byId: ById, rank: nat -> nat, a: nat, b: nat, n: nat)
    requires Ranked(byId, rank) && Replaced(byId, a, b, n)
    ensures a in byId && Root(byId, a) == Root(byId, b)
    decreases n
  {
    if n > 0 {
      AncestorSharesRoot(byId, rank, a, Up(byId[b]).value, n - 1);
      RootOfPredecessor(byId, rank, b);
    }
  }

  /** The marks of one lineage stand together: whatever lies between two of them is one of them. */
  lemma LineageIsOneBlock(entries: seq<Entry>, window: Table, i: nat, j: nat, k: nat)
    requires IdsDistinct(window) && Projects(entries, window) && i < j < k < |entries|
    requires Root(Index(window), entries[i].mark.id) == Root(Index(window), entries[k].mark.id)
    ensures Root(Index(window), entries[j].mark.id) == Root(Index(window), entries[i].mark.id)
  {
    assert entries[i] in entries && entries[j] in entries && entries[k] in entries;
    var byId := Index(window);
    RootInWindow(byId, byId[entries[i].mark.id], {entries[i].mark.id});
    RootInWindow(byId, byId[entries[j].mark.id], {entries[j].mark.id});
    assert InOrder(entries, i, j) && InOrder(entries, j, k);
  }

  lemma {:induction false} RootInWindow(byId: ById, current: Mark, seen: set<nat>)
    requires current.id in byId && byId[current.id] == current && forall id | id in byId :: byId[id].id == id
    ensures var root := RootFrom(byId, current, seen); root.id in byId && byId[root.id] == root
    decreases byId.Keys - seen
  {
    var next := Up(current);
    if next.Some? && next.value in byId && next.value !in seen {
      RootInWindow(byId, byId[next.value], seen + {next.value});
    }
  }

  lemma EntriesDiffer(entries: seq<Entry>, window: Table, i: nat, j: nat)
    requires IdsDistinct(window) && Projects(entries, window) && i < |entries| && j < |entries| && i != j
    ensures entries[i].key.id != entries[j].key.id
  {
    assert entries[i] in entries && entries[j] in entries;
    var byId := Index(window);
    assert byId[entries[i].mark.id] == entries[i].mark && byId[entries[j].mark.id] == entries[j].mark;
    assert if i < j then MarksDiffer(entries, i, j) else MarksDiffer(entries, j, i);
  }

  /** Two entries stand in the order of their keys. */
  lemma KeysOrder(entries: seq<Entry>, window: Table, i: nat, j: nat)
    requires IdsDistinct(window) && Projects(entries, window) && i < |entries| && j < |entries|
    ensures i < j <==> Less(entries[i].key, entries[j].key)
  {
    if i != j {
      EntriesDiffer(entries, window, i, j);
      assert if i < j then InOrder(entries, i, j) else InOrder(entries, j, i);
    }
  }

  /** An ancestor and its descendant stand in the order of their own stamps, and of their ids where these are equal. */
  lemma AncestorsByStamp(entries: seq<Entry>, window: Table, rank: nat -> nat, i: nat, j: nat)
    requires IdsDistinct(window) && Projects(entries, window) && Ranked(Index(window), rank)
    requires i < |entries| && j < |entries|
    requires Ancestor(Index(window), entries[i].mark.id, entries[j].mark.id)
    ensures i < j <==> Before(entries[i].mark, entries[j].mark)
  {
    assert entries[i] in entries && entries[j] in entries;
    var n :| Replaced(Index(window), entries[i].mark.id, entries[j].mark.id, n);
    AncestorSharesRoot(Index(window), rank, entries[i].mark.id, entries[j].mark.id, n);
    KeysOrder(entries, window, i, j);
  }

  /** Inside the window every replacement is stamped strictly after what it replaces. */
  ghost predicate Forward(byId: ById) {
    forall id | id in byId && Up(byId[id]).Some? && Up(byId[id]).value in byId ::
      byId[Up(byId[id]).value].created < byId[id].created
  }

  lemma {:induction false} AncestorIsOlder(byId: ById, a: nat, b: nat, n: nat)
    requires Forward(byId) && Replaced(byId, a, b, n)
    ensures a in byId && (n == 0 ==> a == b) && (n > 0 ==> byId[a].created < byId[b].created)
    decreases n
  {
    if n > 0 {
      AncestorIsOlder(byId, a, Up(byId[b]).value, n - 1);
    }
  }

  lemma ForwardRanks(window: Table) returns (rank: nat -> nat)
    requires IdsDistinct(window) && Forward(Index(window))
    ensures Ranked(Index(window), rank)
  {
    var byId := Index(window);
    rank := (id: nat) => if id in byId then byId[id].created else 0;
  }

  /** With forward stamps a mark stands before everything that replaced it. */
  lemma AncestorsComeFirst(entries: seq<Entry>, window: Table, i: nat, j: nat)
    requires IdsDistinct(window) && Projects(entries, window) && Forward(Index(window))
    requires i < |entries| && j < |entries| && i != j
    requires Ancestor(Index(window), entries[i].mark.id, entries[j].mark.id)
    ensures i < j
  {
    assert entries[i] in entries && entries[j] in entries;
    var n :| Replaced(Index(window), entries[i].mark.id, entries[j].mark.id, n);
    AncestorIsOlder(Index(window), entries[i].mark.id, entries[j].mark.id, n);
    EntriesDiffer(entries, window, i, j);
    var rank := ForwardRanks(window);
    AncestorsByStamp(entries, window, rank, i, j);
  }

  // ---- corrections do not reshuffle -----------------------------------------------------------------------------

  /** A later window of the same room that dropped nothing: old rows are kept, and none of them
      replaces a row that was not there. */
  ghost predicate Extends(window: Table, window': Table) {
    && (forall m | m in window :: m in window')
    && (forall m | m in window && Up(m).Some? :: Up(m).value in Index(window') ==> Up(m).value in Index(window))
  }

  /** Both windows take the same steps from a row of the earlier one, whatever the stamps. */
  lemma {:induction false} SameWalk(window: Table, window': Table, current: Mark, seen: set<nat>)
    requires IdsDistinct(window) && IdsDistinct(window') && Extends(window, window') && current in window
    ensures RootFrom(Index(window'), current, seen) == RootFrom(Index(window), current, seen)
    decreases Index(window).Keys - seen
  {
    var byId, byId', next := Index(window), Index(window'), Up(current);
    if next.Some? && next.value in byId && next.value !in seen {
      assert byId[next.value] in window && byId'[next.value] == byId[next.value];
      SameWalk(window, window', byId[next.value], seen + {next.value});
    }
  }

  lemma SameKey(window: Table, window': Table, entries: seq<Entry>, entries': seq<Entry>, i: nat, i': nat)
    requires IdsDistinct(window) && IdsDistinct(window') && Extends(window, window')
    requires Projects(entries, window) && Projects(entries', window')
    requires i < |entries| && i' < |entries'| && entries[i].mark == entries'[i'].mark
    ensures entries[i].key == entries'[i'].key
  {
    assert entries[i] in entries && entries'[i'] in entries';
    SameWalk(window, window', entries[i].mark, {entries[i].mark.id});
  }

  /** Appending corrections, splits, merges or anything else never swaps two marks that were there. */
  lemma AppendingKeepsOrder(window: Table, window': Table, entries: seq<Entry>, entries': seq<Entry>,
                            i: nat, j: nat, i': nat, j': nat)
    requires IdsDistinct(window) && IdsDistinct(window') && Extends(window, window')
    requires Projects(entries, window) && Projects(entries', window')
    requires i < |entries| && j < |entries| && i' < |entries'| && j' < |entries'|
    requires entries[i].mark == entries'[i'].mark && entries[j].mark == entries'[j'].mark
    ensures i < j <==> i' < j'
  {
    SameKey(window, window', entries, entries', i, i');
    SameKey(window, window', entries, entries', j, j');
    KeysOrder(entries, window, i, j);
    KeysOrder(entries', window', i', j');
  }

  // ---- states and anchors in fields --------------------------------------------------------------------------

  ghost predicate Replaces(rows: Table, id: nat) {
    exists m :: m in rows && m.Relation? && m.supersedes == Some(id)
  }

  /** Without a review a mark is provisional, or superseded if something replaces it. */
  lemma UnreviewedState(rows: Table, id: nat)
    requires forall x | x in rows :: !(x.Review? && x.target == id)
    ensures StateIn(rows, id) == if Replaces(rows, id) then Superseded else Provisional
  {
    assert forall x :: x !in ReviewsIn(rows, id);
    assert HasSuccessor(rows, id) <==> Replaces(rows, id) by { SuccessorIsReplacement(rows, id); }
  }

  lemma SuccessorIsReplacement(rows: Table, id: nat)
    ensures HasSuccessor(rows, id) <==> Replaces(rows, id)
  {
    if m :| m in rows && IsSuccessorOf(m, id) { assert m in rows && m.supersedes == Some(id); }
    if m :| m in rows && m.Relation? && m.supersedes == Some(id) { assert IsSuccessorOf(m, id); }
  }

  /** The review with the latest stamp decides, the higher identifier among equal stamps, unless the mark is
      replaced. */
  lemma LastReviewDecides(rows: Table, r: Mark)
    requires r in rows && r.Review? && IdsDecide(rows)
    requires forall x | x in rows && x.Review? && x.target == r.target ::
               x.created < r.created || (x.created == r.created && x.id <= r.id)
    ensures StateIn(rows, r.target)
            == if Replaces(rows, r.target) || r.action in {Supersede, Correct, Split, Merge} then Superseded
               else if r.action == Confirm then Confirmed else Contested
  {
    var reviews := ReviewsIn(rows, r.target);
    assert r in reviews;
    var latest := Latest(reviews).value;
    assert !Before(latest, r);
    assert latest.id == r.id;
    SuccessorIsReplacement(rows, r.target);
  }

  /** Where pointers do not come back, the anchor is reached along them and points to nothing inside the window. */
  lemma {:induction false} AnchorIsOldest(byId: ById, rank: nat -> nat, id: nat)
    requires Ranked(byId, rank) && id in byId
    ensures var root := Root(byId, id);
            && Ancestor(byId, root.id, id) && root.id in byId && byId[root.id] == root
            && (root.Relation? && root.supersedes.Some? ==> root.supersedes.value !in byId)
    decreases rank(id)
  {
    RootInWindow(byId, byId[id], {id});
    var next := Up(byId[id]);
    if next.Some? && next.value in byId {
      AnchorIsOldest(byId, rank, next.value);
      RootOfPredecessor(byId, rank, id);
      var n: nat :| Replaced(byId, Root(byId, next.value).id, next.value, n);
      assert Replaced(byId, Root(byId, id).id, id, n + 1);
    } else {
      assert Replaced(byId, id, id, 0);
    }
  }
}
