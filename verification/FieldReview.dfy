/**
 What any run of requests at the Field's write door leaves for its readers: the shape of the supersedes graph, which
 reviews retire and reopen a mark, when the capped page and the single-mark query agree, and the order of the page.
 */
module FieldReview {
  import opened Common
  import opened FieldMarks
  import opened FieldDoor

  // ---- what is promised -----------------------------------------------------------------------------------

  /** The supersedes graph is a forest: a mark replaces one mark of its room that was written before
      it, so following predecessors always ends. */
  lemma SupersedesIsAForest(requests: seq<Request>, i: nat)
    requires i < |Run([], requests)| && Up(Run([], requests)[i]).Some?
    ensures var rows := Run([], requests);
            exists j :: 0 <= j < i && rows[j].Relation? && rows[j].room == rows[i].room
                        && rows[j].id == Up(rows[i]).value
                        && forall k | 0 <= k < |rows| && k != j :: rows[k].id != rows[j].id
  {
    RunKeepsInv(requests);
    var rows := Run([], requests);
    assert RowOk(rows, i);
    var j :| 0 <= j < i && rows[j].Relation? && rows[j].id == Up(rows[i]).value && rows[j].room == rows[i].room;
    forall k | 0 <= k < |rows| && k != j ensures rows[k].id != rows[j].id {
      assert if k < j then IdsDiffer(rows, k, j) else IdsDiffer(rows, j, k);
    }
  }

  /** All replacements of a mark come from one single review of it, and that review is a correction,
      a split or a merge. */
  lemma {:induction false} ReplacementsComeFromOneReview(requests: seq<Request>, a: Mark, b: Mark)
    requires a in Run([], requests) && b in Run([], requests) && Up(a).Some? && Up(a) == Up(b)
    ensures var rows := Run([], requests);
            a.causedBy == b.causedBy && a.causedBy.Some?
            && exists r :: r in rows && IsReviewOf(r, Up(a).value) && r.id == a.causedBy.value
                           && r.action in {Correct, Split, Merge}
  {
    RunKeepsInv(requests);
    var rows := Run([], requests);
    var i :| 0 <= i < |rows| && rows[i] == a;
    assert RowOk(rows, i);
    var j :| 0 <= j < i && rows[j].Review? && rows[j].id == a.causedBy.value && rows[j].target == Up(a).value
             && rows[j].action in {Correct, Split, Merge};
    assert rows[j] in rows;
  }

  lemma {:induction false} RunOnlyAppends(rows: Table, requests: seq<Request>)
    ensures rows <= Run(rows, requests)
  {
    if requests != [] {
      RunOnlyAppends(rows, requests[..|requests| - 1]);
    }
  }

  /** A mark with a named successor reads superseded in every later state, whoever reviews it. */
  lemma {:induction false} ReplacedStaysSuperseded(rows: Table, requests: seq<Request>, id: nat)
    requires HasSuccessor(rows, id)
    ensures StateIn(Run(rows, requests), id) == Superseded
  {
    RunOnlyAppends(rows, requests);
    var m :| m in rows && IsSuccessorOf(m, id);
    assert m in Run(rows, requests);
  }

  /** A confirmation or a contest of a superseded mark is always accepted, and appends that one review. */
  lemma ReviewIsAccepted(rows: Table, q: Request)
    requires q.ReviewMark? && q.action in {Confirm, Contest} && |q.reviewIds| == 1
    requires IsMark(rows, q.room, q.mark) && StateIn(rows, q.mark) == Superseded && !IdTaken(rows, q.reviewIds[0])
    ensures ReviewError(rows, q).None?
    ensures Step(rows, q) == rows + [Review(q.reviewIds[0], q.room, q.now, q.mark, q.action)]
  {
    PlainReview(rows, q);
    assert Sources(q) == [q.mark];
  }

  /** What was retired by a bare supersede, or as a further source of a merge, is retired only by its
      latest review: a confirmation or a contest reopens it exactly when its own stamp comes after that
      review's. A mark with a named successor is never reopened. */
  lemma ReviewReopens(rows: Table, r: Mark)
    requires r.Review? && r.action in {Confirm, Contest}
    requires StateIn(rows, r.target) == Superseded && !IdTaken(rows, r.id)
    ensures StateIn(rows + [r], r.target)
            == if HasSuccessor(rows, r.target) || !Before(Latest(ReviewsIn(rows, r.target)).value, r) then Superseded
               else if r.action == Confirm then Confirmed else Contested
  {
    var reviews := ReviewsIn(rows, r.target);
    SuccessorOfAppend(rows, r, r.target);
    ReviewAppended(rows, r);
    assert forall x | x in reviews :: x in rows && x.id != r.id;
    LastWordDecides(reviews, r);
  }

  /** A review with an id of its own is the latest unless the latest of the others comes after it. */
  lemma LastWordDecides(reviews: seq<Mark>, r: Mark)
    requires forall x | x in reviews :: x.id != r.id
    ensures Latest(reviews + [r])
            == if reviews == [] || Before(Latest(reviews).value, r) then Some(r) else Latest(reviews)
  {
    assert (reviews + [r])[..|reviews|] == reviews;
  }

  lemma PlainReview(rows: Table, q: Request)
    requires q.ReviewMark? && q.action in {Confirm, Contest, Supersede} && |q.reviewIds| == 1
    ensures |q.reviewIds| == |Sources(q)| && NewRows(q) == [Review(q.reviewIds[0], q.room, q.now, q.mark, q.action)]
    ensures Insertable(rows, NewRows(q)) <==> !IdTaken(rows, q.reviewIds[0])
  {
    assert NewRows(q)[1..] == [];
  }

  /** A merge names a successor of its first source only. */
  lemma MergeReplacesOnlyTheFirst(rows: Table, q: Request, id: nat)
    requires q.ReviewMark? && q.action == Merge && ReviewError(rows, q).None? && id in Sources(q)
    ensures HasSuccessor(Step(rows, q), id) <==> id == q.mark
  {
    NotYetSuperseded(rows, q, id);
    MergedIsReplacedOnce(q, id);
    SuccessorsOfBoth(rows, NewRows(q), id);
  }

  lemma MergedIsReplacedOnce(q: Request, id: nat)
    requires q.ReviewMark? && q.action == Merge && |q.reviewIds| == |Sources(q)| && q.replacements != []
    ensures HasSuccessor(NewRows(q), id) <==> id == q.mark
  {
    var ms, n := NewRows(q), |Sources(q)|;
    assert IsSuccessorOf(ms[n], q.mark) && ms[n] in ms;
    forall m | m in ms && m.Relation? ensures IsSuccessorOf(m, q.mark) {}
  }

  lemma SuccessorsOfBoth(rows: Table, ms: Table, id: nat)
    ensures HasSuccessor(rows + ms, id) <==> HasSuccessor(rows, id) || HasSuccessor(ms, id)
  {
    if m :| m in rows && IsSuccessorOf(m, id) { assert m in rows + ms; }
    if m :| m in ms && IsSuccessorOf(m, id) { assert m in rows + ms; }
  }

  lemma {:induction false} NoReviewMore(rows: Table, ms: Table, id: nat)
    requires forall i | 0 <= i < |ms| :: !IsReviewOf(ms[i], id)
    ensures ReviewsIn(rows + ms, id) == ReviewsIn(rows, id)
  {
    if ms == [] {
      assert rows + ms == rows;
    } else {
      var init := ms[..|ms| - 1];
      NoReviewMore(rows, init, id);
      assert (rows + ms)[..|rows + ms| - 1] == rows + init;
    }
  }

  lemma ReviewAppended(rows: Table, r: Mark)
    requires r.Review?
    ensures ReviewsIn(rows + [r], r.target) == ReviewsIn(rows, r.target) + [r]
  {
    assert (rows + [r])[..|rows|] == rows;
  }

  lemma OneReviewMore(rows: Table, before: Table, r: Mark, after: Table)
    requires r.Review?
    requires forall i | 0 <= i < |before| :: !IsReviewOf(before[i], r.target)
    requires forall i | 0 <= i < |after| :: !IsReviewOf(after[i], r.target)
    ensures ReviewsIn(rows + before + [r] + after, r.target) == ReviewsIn(rows, r.target) + [r]
  {
    NoReviewMore(rows, before, r.target);
    ReviewAppended(rows + before, r);
    NoReviewMore(rows + before + [r], after, r.target);
  }

  /** Of the rows that a review appends, just the k-th reviews the k-th source. */
  lemma NewRowsReviewOnce(q: Request, k: nat)
    requires q.ReviewMark? && |q.reviewIds| == |Sources(q)| && k < |Sources(q)|
    ensures NewRows(q)[k] == Review(q.reviewIds[k], q.room, q.now, Sources(q)[k], q.action)
    ensures forall i | 0 <= i < |NewRows(q)| :: IsReviewOf(NewRows(q)[i], Sources(q)[k]) <==> i == k
  {
  }

  lemma SplitAt(rows: Table, ms: Table, k: nat)
    requires k < |ms|
    ensures rows + ms == rows + ms[..k] + [ms[k]] + ms[k + 1..]
  {
  }

  /** A merge gives each of its sources one review more. */
  lemma MergeReviewsOnce(rows: Table, q: Request, k: nat)
    requires q.ReviewMark? && q.action == Merge && ReviewError(rows, q).None? && k < |Sources(q)|
    ensures var r := Review(q.reviewIds[k], q.room, q.now, Sources(q)[k], Merge);
            ReviewsIn(Step(rows, q), Sources(q)[k]) == ReviewsIn(rows, Sources(q)[k]) + [r]
  {
    var ms := NewRows(q);
    NewRowsReviewOnce(q, k);
    OneReviewMore(rows, ms[..k], ms[k], ms[k + 1..]);
    SplitAt(rows, ms, k);
  }

  lemma NewReviewIsFresh(rows: Table, q: Request, k: nat)
    requires q.ReviewMark? && ReviewError(rows, q).None? && k < |Sources(q)|
    ensures forall r | r in rows :: r.id != q.reviewIds[k]
  {
    InsertableAt(rows, NewRows(q), k);
    forall r | r in rows ensures r.id != q.reviewIds[k] {
      assert r in rows + NewRows(q)[..k];
    }
  }

  /** A retiring review that is added to reviews that do not retire decides exactly if it is the latest. */
  lemma RetiredByTheLatest(reviews: seq<Mark>, r: Mark)
    requires forall x | x in reviews + [r] :: x.Review?
    requires Retires(r.action) && Derive(false, reviews) != Superseded && forall x | x in reviews :: x.id != r.id
    ensures Derive(false, reviews + [r]) == Superseded
            <==> Latest(reviews).None? || Before(Latest(reviews).value, r)
  {
    assert (reviews + [r])[..|reviews|] == reviews;
  }

  /** After a merge its first source is superseded; a further source is superseded exactly when the
      review the merge gave it comes after all the reviews it had. */
  lemma MergeRetires(rows: Table, q: Request, k: nat)
    requires q.ReviewMark? && q.action == Merge && ReviewError(rows, q).None? && k < |Sources(q)|
    ensures var id, latest := Sources(q)[k], Latest(ReviewsIn(rows, Sources(q)[k]));
            StateIn(Step(rows, q), id) == Superseded
            <==> k == 0 || latest.None? || Before(latest.value, Review(q.reviewIds[k], q.room, q.now, id, Merge))
  {
    var id := Sources(q)[k];
    MergeReplacesOnlyTheFirst(rows, q, id);
    if k > 0 {
      NotYetSuperseded(rows, q, id);
      MergeReviewsOnce(rows, q, k);
      NewReviewIsFresh(rows, q, k);
      RetiredByTheLatest(ReviewsIn(rows, id), Review(q.reviewIds[k], q.room, q.now, id, Merge));
    }
  }

  lemma NotYetSuperseded(rows: Table, q: Request, id: nat)
    requires q.ReviewMark? && q.action == Merge && ReviewError(rows, q).None? && id in Sources(q)
    ensures !HasSuccessor(rows, id) && Derive(false, ReviewsIn(rows, id)) != Superseded
  {
    assert StateIn(rows, id) != Superseded;
  }

  // ---- the projections of reachable tables -------------------------------------------------------------------

  lemma PointerStaysInRoom(rows: Table, r: Mark, id: nat)
    requires Inv(rows) && r in rows && (IsReviewOf(r, id) || IsSuccessorOf(r, id))
    ensures exists m :: m in rows && m.id == id && m.room == r.room
  {
    var i :| 0 <= i < |rows| && rows[i] == r;
    assert RowOk(rows, i);
    var j :| 0 <= j < i && rows[j].Relation? && rows[j].id == id && rows[j].room == r.room;
    assert rows[j] in rows;
  }

  lemma IdsDecideRows(rows: Table)
    requires IdsDistinct(rows)
    ensures IdsDecide(rows)
  {
    forall a, b | a in rows && b in rows && a.id == b.id ensures a == b {
      var i :| 0 <= i < |rows| && rows[i] == a;
      var j :| 0 <= j < |rows| && rows[j] == b;
      assert if i < j then IdsDiffer(rows, i, j) else i == j || IdsDiffer(rows, j, i);
    }
  }

  lemma PointedAtFromItsRoom(rows: Table, m: Mark)
    requires Inv(rows) && m in rows
    ensures IdsDecide(rows) && PointedAtInRoom(rows, m) && !IsReviewOf(m, m.id)
  {
    IdsDecideRows(rows);
    forall r | r in rows && (IsReviewOf(r, m.id) || IsSuccessorOf(r, m.id)) ensures r.room == m.room && r != m {
      PointerStaysInRoom(rows, r, m.id);
      var i :| 0 <= i < |rows| && rows[i] == r;
      assert RowOk(rows, i);
      var j :| 0 <= j < i && rows[j].id == m.id;
      assert IdsDiffer(rows, j, i);
    }
  }

  /** In every reachable table a mark reads the same in the single-mark query and in all capped projections
      that hold it exactly if what decides its state is stamped strictly after it. */
  lemma ProjectionAgreesExactly(requests: seq<Request>, m: Mark)
    requires m in Run([], requests)
    ensures AgreesInEveryWindow(Run([], requests), m) <==> DecidedLater(Run([], requests), m)
  {
    RunKeepsInv(requests);
    PointedAtFromItsRoom(Run([], requests), m);
    WindowsAgreeExactly(Run([], requests), m);
  }

  /** The reviews and successors of one mark are stamped strictly after it: enough for that mark. */
  lemma ProjectionAgreesWithSingleMark(requests: seq<Request>, window: Table, room: nat, cap: nat, m: Mark)
    requires IsWindow(window, Run([], requests), room, cap) && m in window
    requires forall r | r in Run([], requests) && (IsReviewOf(r, m.id) || IsSuccessorOf(r, m.id)) ::
               m.created < r.created
    ensures StateIn(window, m.id) == StateIn(Run([], requests), m.id)
  {
    var rows := Run([], requests);
    assert DecidedLater(rows, m) by {
      if HasSuccessor(rows, m.id) {
        var s :| s in rows && IsSuccessorOf(s, m.id);
        assert LaterSuccessor(rows, m);
      }
    }
    ProjectionAgreesExactly(requests, m);
  }

  // ---- the cap against equal stamps ----------------------------------------------------------------------------

  function Key(k: nat): string {
    seq(k, _ => 'k')
  }

  /** A mark confirmed at its own stamp, and then n marks more. */
  function Crowd(n: nat): seq<Request> {
    if n == 0 then [Create(0, 0, Key(0), 7), ReviewMark(0, 0, Confirm, [], [], [1], 7)]
    else Crowd(n - 1) + [Create(n + 1, 0, Key(n), 8)]
  }

  function CrowdRow(k: nat): Mark {
    if k == 0 then Relation(0, 0, 7, None, None, Key(0))
    else if k == 1 then Review(1, 0, 7, 0, Confirm)
    else Relation(k, 0, 8, None, None, Key(k - 1))
  }

  ghost predicate IsCrowd(rows: Table, n: nat) {
    |rows| == n + 2 && forall k | 0 <= k < |rows| :: rows[k] == CrowdRow(k)
  }

  lemma {:induction false} CrowdRows(n: nat)
    ensures IsCrowd(Run([], Crowd(n)), n)
  {
    if n == 0 {
      CrowdStarts();
    } else {
      CrowdRows(n - 1);
      CrowdGrows(Run([], Crowd(n - 1)), n);
      assert Crowd(n)[..|Crowd(n)| - 1] == Crowd(n - 1);
    }
  }

  lemma CrowdGrows(rows: Table, n: nat)
    requires n > 0 && IsCrowd(rows, n - 1)
    ensures IsCrowd(Step(rows, Create(n + 1, 0, Key(n), 8)), n)
  {
    forall m | m in rows ensures m.id != n + 1 && !HoldsKey(m, 0, Key(n)) {
      var k :| 0 <= k < n + 1 && m == rows[k];
      assert m.Relation? ==> |m.key| < n;
    }
  }

  lemma CrowdStarts()
    ensures Run([], Crowd(0)) == [CrowdRow(0), CrowdRow(1)]
  {
    var create, review := Crowd(0)[0], Crowd(0)[1];
    assert Crowd(0)[..1] == [create] && [create][..0] == [];
    assert Run([], [create]) == [CrowdRow(0)];
    var rows := [CrowdRow(0)];
    assert rows[0] in rows && IsMark(rows, 0, 0) && ReviewsIn(rows, 0) == [];
    PlainReview(rows, review);
    assert !IdTaken(rows, 1) && Sources(review) == [0];
  }

  lemma CrowdWindow(rows: Table, cap: nat)
    requires cap > 0 && IsCrowd(rows, cap - 1)
    ensures IsWindow(rows[2..] + [CrowdRow(0)], rows, 0, cap) && CrowdRow(0) in rows[2..] + [CrowdRow(0)]
  {
    var window := rows[2..] + [CrowdRow(0)];
    forall k | 0 <= k < cap ensures window[k] == CrowdRow(if k == cap - 1 then 0 else k + 2) {}
    forall i, j | 0 <= i < j < cap ensures IdsDiffer(window, i, j) && window[j].created <= window[i].created {}
    forall k | 0 <= k < |rows| && k != 1 ensures rows[k] in window {
      assert rows[k] == window[if k == 0 then cap - 1 else k - 2];
    }
    assert rows[0] == CrowdRow(0) && CrowdRow(0) in rows;
  }

  lemma OnlyReview(rows: Table, r: Mark)
    requires r in rows && r.Review? && !HasSuccessor(rows, r.target)
    requires forall x | x in rows && IsReviewOf(x, r.target) :: x == r
    ensures StateIn(rows, r.target) == Derive(false, [r])
  {
    var reviews := ReviewsIn(rows, r.target);
    assert r in reviews && Latest(reviews).value == r;
    assert r in [r] && Latest([r]).value == r;
  }

  lemma NoReview(rows: Table, id: nat)
    requires forall x | x in rows :: !IsReviewOf(x, id) && !IsSuccessorOf(x, id)
    ensures StateIn(rows, id) == Provisional
  {
    var reviews := ReviewsIn(rows, id);
    assert forall r :: r !in reviews;
  }

  lemma CrowdReads(rows: Table, n: nat)
    requires IsCrowd(rows, n)
    ensures StateIn(rows, 0) == Confirmed
  {
    forall m | m in rows ensures !IsSuccessorOf(m, 0) && (IsReviewOf(m, 0) ==> m == CrowdRow(1)) {
      var k :| 0 <= k < |rows| && m == rows[k];
    }
    assert rows[1] == CrowdRow(1);
    OnlyReview(rows, CrowdRow(1));
    assert Latest([CrowdRow(1)]).value == CrowdRow(1);
  }

  lemma CrowdWindowReads(rows: Table, n: nat)
    requires IsCrowd(rows, n)
    ensures StateIn(rows[2..] + [CrowdRow(0)], 0) == Provisional
  {
    var window := rows[2..] + [CrowdRow(0)];
    forall m | m in window ensures !IsReviewOf(m, 0) && !IsSuccessorOf(m, 0) {
      var k :| 0 <= k < |window| && m == window[k];
      assert k < n ==> m == rows[k + 2];
    }
    NoReview(window, 0);
  }

  /** For every cap, a room in which the cap cuts just the confirmation of a mark: the two readings differ. */
  lemma EqualStampsDisagree(cap: nat) returns (requests: seq<Request>, window: Table)
    requires cap > 0
    ensures IsWindow(window, Run([], requests), 0, cap) && CrowdRow(0) in window
    ensures StateIn(window, 0) == Provisional && StateIn(Run([], requests), 0) == Confirmed
  {
    requests := Crowd(cap - 1);
    CrowdRows(cap - 1);
    var rows := Run([], requests);
    window := rows[2..] + [CrowdRow(0)];
    CrowdWindow(rows, cap);
    CrowdWindowReads(rows, cap - 1);
    CrowdReads(rows, cap - 1);
  }

  // ---- the order of a lineage on the page ----------------------------------------------------------------------

  ghost function Position(rows: Table, id: nat): (k: nat)
    ensures IdTaken(rows, id) ==> k < |rows| && rows[k].id == id
  {
    if k: nat :| k < |rows| && rows[k].id == id then k else 0
  }

  lemma PlacesDiffer(rows: Table, i: nat, j: nat)
    requires IdsDistinct(rows) && i < |rows| && j < |rows| && i != j
    ensures rows[i].id != rows[j].id
  {
    assert if i < j then IdsDiffer(rows, i, j) else IdsDiffer(rows, j, i);
  }

  /** Replacements point to rows written before them, whatever the stamps say. */
  lemma PositionRanks(rows: Table, window: Table)
    requires Inv(rows) && IdsDistinct(window) && forall w | w in window :: w in rows
    ensures Ranked(Index(window), (id: nat) => Position(rows, id))
  {
    var byId := Index(window);
    forall id | id in byId && Up(byId[id]).Some? && Up(byId[id]).value in byId
      ensures Position(rows, Up(byId[id]).value) < Position(rows, id)
    {
      var up := Up(byId[id]).value;
      assert IdTaken(rows, id) && IdTaken(rows, up);
      var k, p := Position(rows, id), Position(rows, up);
      IdsDecideRows(rows);
      assert rows[k] == byId[id] && RowOk(rows, k);
      var j :| 0 <= j < k && rows[j].id == up;
      if j != p { PlacesDiffer(rows, j, p); }
    }
  }

  /**
   On the page a mark stands before one that replaced it, directly or not, exactly if it comes before it by its own
   stamp, and by its id where the stamps are equal. It holds for every selection of rows of a reachable table.
   */
  lemma LineageOrderExactly(requests: seq<Request>, window: Table, entries: seq<Entry>, i: nat, j: nat)
    requires IdsDistinct(window) && forall w | w in window :: w in Run([], requests)
    requires Projects(entries, window) && i < |entries| && j < |entries|
    requires Ancestor(Index(window), entries[i].mark.id, entries[j].mark.id)
    ensures i < j <==> Before(entries[i].mark, entries[j].mark)
  {
    RunKeepsInv(requests);
    PositionRanks(Run([], requests), window);
    AncestorsByStamp(entries, window, (id: nat) => Position(Run([], requests), id), i, j);
  }

  const EARLY := Relation(0, 0, 9, None, None, "k")

  const CORRECTION := Relation(2, 0, 4, Some(0), Some(1), "kk")

  lemma SkewedRoom() returns (requests: seq<Request>)
    ensures Run([], requests) == [EARLY, Review(1, 0, 4, 0, Correct), CORRECTION]
  {
    var create := Create(0, 0, "k", 9);
    var correct := ReviewMark(0, 0, Correct, [], [Replacement(2, "kk", true)], [1], 4);
    requests := [create, correct];
    assert requests[..1] == [create] && [create][..0] == [];
    assert Run([], [create]) == [EARLY] && EARLY in [EARLY];
    CorrectionIsAccepted([EARLY], correct);
  }

  lemma SkewedWindow(rows: Table)
    requires rows == [EARLY, Review(1, 0, 4, 0, Correct), CORRECTION]
    ensures IsWindow(rows, rows, 0, 500) && EARLY in rows && CORRECTION in rows && Ancestor(Index(rows), 0, 2)
  {
    assert rows[0] == EARLY && rows[2] == CORRECTION;
    assert IdsDistinct(rows);
    assert Replaced(Index(rows), 0, 0, 0) && Replaced(Index(rows), 0, 2, 1);
  }

  lemma PlaceOf(window: Table, entries: seq<Entry>, m: Mark) returns (i: nat)
    requires Projects(entries, window) && m in window && m.Relation?
    ensures i < |entries| && entries[i].mark == m
  {
    assert EntryFor(window, m) in entries;
    i :| 0 <= i < |entries| && entries[i] == EntryFor(window, m);
  }

  /** A correction whose clock runs behind is accepted, and stands before the mark that it corrects. */
  lemma SkewedCorrection() returns (requests: seq<Request>, entries: seq<Entry>, i: nat, j: nat)
    ensures var rows := Run([], requests);
            && IsWindow(rows, rows, 0, 500) && Projects(entries, rows) && j < i < |entries|
            && entries[i].mark == EARLY && entries[j].mark == CORRECTION && CORRECTION.supersedes == Some(EARLY.id)
  {
    requests := SkewedRoom();
    var rows := Run([], requests);
    SkewedWindow(rows);
    entries := ProjectionExists(rows);
    i := PlaceOf(rows, entries, EARLY);
    j := PlaceOf(rows, entries, CORRECTION);
    LineageOrderExactly(requests, rows, entries, i, j);
  }

  /** A correction of a mark that nobody has reviewed. */
  lemma CorrectionIsAccepted(rows: Table, q: Request)
    requires q.ReviewMark? && q.action == Correct && |q.reviewIds| == 1 && |q.replacements| == 1
    requires IsMark(rows, q.room, q.mark) && !HasSuccessor(rows, q.mark) && ReviewsIn(rows, q.mark) == []
    requires !IdTaken(rows, q.reviewIds[0]) && !IdTaken(rows, q.replacements[0].id)
    requires q.reviewIds[0] != q.replacements[0].id
    requires q.replacements[0].resolves && !KeyTaken(rows, q.room, q.replacements[0].key)
    ensures Step(rows, q) == rows + [Review(q.reviewIds[0], q.room, q.now, q.mark, Correct),
                                     Relation(q.replacements[0].id, q.room, q.now, Some(q.mark), Some(q.reviewIds[0]),
                                              q.replacements[0].key)]
  {
    var ms := NewRows(q);
    var r, m := ms[0], ms[1];
    assert ms == [r, m] && ms[1..] == [m] && [m][1..] == [];
    assert Insertable(rows + [r] + [m], []);
    assert Insertable(rows + [r], [m]);
    assert Insertable(rows, ms);
  }

  // ---- reviews do not reshuffle --------------------------------------------------------------------------------

  /** The cap cuts no row of the room. */
  ghost predicate Whole(window: Table, rows: Table, room: nat) {
    forall r | r in rows && r.room == room :: r in window
  }

  /** While the cap cuts nothing, the later windows of a room extend its earlier ones. */
  lemma WindowsExtend(rows: Table, rows': Table, room: nat, cap: nat, window: Table, window': Table)
    requires Inv(rows) && Inv(rows') && rows <= rows'
    requires IsWindow(window, rows, room, cap) && IsWindow(window', rows', room, cap)
    requires Whole(window, rows, room) && Whole(window', rows', room)
    ensures Extends(window, window')
  {
    forall m | m in window && Up(m).Some? ensures Up(m).value in Index(window) {
      PointerStaysInRoom(rows, m, Up(m).value);
      var p :| p in rows && p.id == Up(m).value && p.room == m.room;
      assert p in window;
    }
  }

  /** Reviews of any kind, in a room of which nothing is cut, never swap two marks on the page, whatever the stamps. */
  lemma ReviewsDoNotReshuffle(requests: seq<Request>, more: seq<Request>, room: nat, cap: nat,
                              window: Table, window': Table, entries: seq<Entry>, entries': seq<Entry>,
                              i: nat, j: nat, i': nat, j': nat)
    requires IsWindow(window, Run([], requests), room, cap)
    requires IsWindow(window', Run(Run([], requests), more), room, cap)
    requires Whole(window, Run([], requests), room) && Whole(window', Run(Run([], requests), more), room)
    requires Projects(entries, window) && Projects(entries', window')
    requires i < |entries| && j < |entries| && i' < |entries'| && j' < |entries'|
    requires entries[i].mark == entries'[i'].mark && entries[j].mark == entries'[j'].mark
    ensures i < j <==> i' < j'
  {
    var rows := Run([], requests);
    RunKeepsInv(requests);
    LaterKeepsInv(rows, more);
    RunOnlyAppends(rows, more);
    WindowsExtend(rows, Run(rows, more), room, cap, window, window');
    AppendingKeepsOrder(window, window', entries, entries', i, j, i', j');
  }

  // ---- the whole order of the page ------------------------------------------------------------------------------

  /** The page goes by the stamps of the anchors, then by the anchors' identifiers, then by the marks' own stamps and
      identifiers; an anchor is the oldest mark of the window that the pointers lead to. */
  lemma PageOrderInFields(requests: seq<Request>, window: Table, entries: seq<Entry>, i: nat, j: nat)
    requires IdsDistinct(window) && forall w | w in window :: w in Run([], requests)
    requires Projects(entries, window) && i < |entries| && j < |entries| && i != j
    ensures var byId, a, b := Index(window), entries[i].mark, entries[j].mark;
            var r, s := Root(byId, a.id), Root(byId, b.id);
            && Ancestor(byId, r.id, a.id) && (r.Relation? && r.supersedes.Some? ==> r.supersedes.value !in byId)
            && (i < j <==>
                  if r.created != s.created then r.created < s.created
                  else if r.id != s.id then r.id < s.id
                  else if a.created != b.created then a.created < b.created
                  else a.id < b.id)
  {
    RunKeepsInv(requests);
    PositionRanks(Run([], requests), window);
    assert entries[i] in entries && entries[j] in entries;
    AnchorIsOldest(Index(window), (id: nat) => Position(Run([], requests), id), entries[i].mark.id);
    KeysOrder(entries, window, i, j);
    EntriesDiffer(entries, window, i, j);
  }
}
