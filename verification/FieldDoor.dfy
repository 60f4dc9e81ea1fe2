/**
 The Field's write door. Its row locks and its one transaction make each request one atomic step:
 what it checked holds when it writes, and either all of its rows land or none. `now` is read before
 the locks are held, so nothing is assumed about how the stamps of two requests compare.
 */
module FieldDoor {
  import opened Common
  import opened FieldMarks

  /** A replacement to be written: the id drawn for it, its relation-and-subjects key, and whether its relation is
      known, its subjects resolve to rows of the room and its payload is accepted. */
  datatype Replacement = Replacement(id: nat, key: string, resolves: bool)

  datatype Request =
    | Create(id: nat, room: nat, key: string, now: nat)
    | ReviewMark(room: nat, mark: nat, action: Action, others: seq<nat>,
                 replacements: seq<Replacement>, reviewIds: seq<nat>, now: nat)

  datatype DoorError = Unresolved | NotFound | AlreadySo | TooFew | NoReplacement | Duplicate

  // ---- one request as a function of the table -------------------------------------------------------

  predicate IsMark(rows: Table, room: nat, id: nat) {
    exists m :: m in rows && m.Relation? && m.id == id && m.room == room
  }

  predicate KeyTaken(rows: Table, room: nat, key: string) {
    exists m :: m in rows && HoldsKey(m, room, key)
  }

  predicate HoldsKey(m: Mark, room: nat, key: string) {
    m.Relation? && m.room == room && m.key == key
  }

  predicate IdTaken(rows: Table, id: nat) {
    exists m :: m in rows && m.id == id
  }

  /** Keep the first occurrence of each id. */
  function Distinct(ids: seq<nat>): (r: seq<nat>)
    ensures forall id :: id in r <==> id in ids
    ensures forall i, j | 0 <= i < j < |r| :: r[i] != r[j]
    ensures ids != [] ==> r != [] && r[0] == ids[0]
  {
    if ids == [] then []
    else
      var init, last := ids[..|ids| - 1], ids[|ids| - 1];
      assert ids == init + [last];
      if last in init then Distinct(init) else Distinct(init) + [last]
  }

  /** The marks a review touches; the reviewed mark comes first. */
  function Sources(q: Request): (s: seq<nat>)
    requires q.ReviewMark?
    ensures s != [] && s[0] == q.mark
  {
    if q.action == Merge then Distinct([q.mark] + q.others) else [q.mark]
  }

  /** The replacements a review writes: one for correct and merge, all of them for split. */
  function Written(q: Request): seq<Replacement>
    requires q.ReviewMark?
  {
    if q.action == Split then q.replacements
    else if q.action in {Correct, Merge} && q.replacements != [] then [q.replacements[0]]
    else []
  }

  /** The rows a review appends: a review of every source, then the replacements of the first. */
  function NewRows(q: Request): seq<Mark>
    requires q.ReviewMark? && |q.reviewIds| == |Sources(q)|
  {
    var sources := Sources(q);
    seq(|sources|, k requires 0 <= k < |sources| => Review(q.reviewIds[k], q.room, q.now, sources[k], q.action))
    + seq(|Written(q)|, k requires 0 <= k < |Written(q)| =>
            Relation(Written(q)[k].id, q.room, q.now, Some(q.mark), Some(q.reviewIds[0]), Written(q)[k].key))
  }

  /** The primary key and the unique index on (room, key). */
  predicate Insertable(rows: Table, ms: seq<Mark>)
    decreases |ms|
  {
    ms == [] ||
    (!IdTaken(rows, ms[0].id) && (ms[0].Relation? ==> !KeyTaken(rows, ms[0].room, ms[0].key))
     && Insertable(rows + [ms[0]], ms[1..]))
  }

  predicate SourcesAreMarks(rows: Table, q: Request)
    requires q.ReviewMark?
  {
    forall s | s in Sources(q) :: IsMark(rows, q.room, s)
  }

  predicate SourcesAreOpen(rows: Table, q: Request)
    requires q.ReviewMark?
  {
    forall s | s in Sources(q) :: StateIn(rows, s) != Superseded
  }

  predicate AllResolve(q: Request)
    requires q.ReviewMark?
  {
    forall r | r in Written(q) :: r.resolves
  }

  function ReviewError(rows: Table, q: Request): (e: Option<DoorError>)
    requires q.ReviewMark?
    ensures e.None? ==> |q.reviewIds| == |Sources(q)| && Insertable(rows, NewRows(q)) && SourcesAreMarks(rows, q)
  {
    var state := StateIn(rows, q.mark);
    if !IsMark(rows, q.room, q.mark) then Some(NotFound)
    else if Retires(q.action) && state == Superseded then Some(AlreadySo)
    else if q.action == Confirm && state == Confirmed then Some(AlreadySo)
    else if q.action == Contest && state == Contested then Some(AlreadySo)
    else if q.action == Merge && |Sources(q)| < 2 then Some(TooFew)
    else if !SourcesAreMarks(rows, q) then Some(NotFound)
    else if q.action == Merge && !SourcesAreOpen(rows, q) then Some(AlreadySo)
    else if q.action in {Correct, Split, Merge} && q.replacements == [] then Some(NoReplacement)
    else if !AllResolve(q) then Some(Unresolved)
    else if |q.reviewIds| != |Sources(q)| || !Insertable(rows, NewRows(q)) then Some(Duplicate)
    else None
  }

  function Step(rows: Table, q: Request): Table {
    match q
    case Create(id, room, key, now) =>
      if KeyTaken(rows, room, key) || IdTaken(rows, id) then rows
      else rows + [Relation(id, room, now, None, None, key)]
    case ReviewMark(_, _, _, _, _, _, _) =>
      if ReviewError(rows, q).Some? then rows else rows + NewRows(q)
  }

  function Run(rows: Table, requests: seq<Request>): Table {
    if requests == [] then rows else Step(Run(rows, requests[..|requests| - 1]), requests[|requests| - 1])
  }

  // ---- the door as it inserts rows ---------------------------------------------------------------------

  class FieldTable {
    var rows: Table

    constructor ()
      ensures rows == []
    {
      rows := [];
    }

    /** A mark written from nothing: a taken key makes it a no-op, and either way the mark that holds the
        key is handed back. `resolves` says whether the subjects and the thread belong to the room. */
    method CreateFieldMark(id: nat, room: nat, key: string, resolves: bool, now: nat)
      returns (r: Result<nat, DoorError>)
      requires !IdTaken(rows, id)
      modifies this
      ensures rows == if resolves then Step(old(rows), Create(id, room, key, now)) else old(rows)
      ensures !resolves <==> r == Err(Unresolved)
      ensures resolves ==> r.Ok? && exists m :: m in rows && HoldsKey(m, room, key) && m.id == r.value
      ensures resolves && !KeyTaken(old(rows), room, key) ==> r == Ok(id)
    {
      if !resolves { return Err(Unresolved); }
      if !KeyTaken(rows, room, key) {
        var m := Relation(id, room, now, None, None, key);
        rows := rows + [m];
        assert m in rows;
        return Ok(id);
      }
      var existing :| existing in rows && HoldsKey(existing, room, key);
      return Ok(existing.id);
    }

    /** One review: every row lands, or none does. */
    method ReviewFieldMark(q: Request) returns (r: Result<nat, DoorError>)
      requires q.ReviewMark? && |q.reviewIds| == |Sources(q)|
      modifies this
      ensures rows == Step(old(rows), q)
      ensures r == if ReviewError(old(rows), q).Some? then Err(ReviewError(old(rows), q).value) else Ok(q.reviewIds[0])
    {
      if !IsMark(rows, q.room, q.mark) { return Err(NotFound); }
      var state := StateIn(rows, q.mark);
      if Retires(q.action) && state == Superseded { return Err(AlreadySo); }
      if q.action == Confirm && state == Confirmed { return Err(AlreadySo); }
      if q.action == Contest && state == Contested { return Err(AlreadySo); }
      var sources := Sources(q);
      if q.action == Merge && |sources| < 2 { return Err(TooFew); }
      if exists s :: s in sources && !IsMark(rows, q.room, s) { return Err(NotFound); }
      if q.action == Merge && exists s :: s in sources && StateIn(rows, s) == Superseded { return Err(AlreadySo); }
      if q.action in {Correct, Split, Merge} && q.replacements == [] { return Err(NoReplacement); }
      if exists r :: r in Written(q) && !r.resolves { return Err(Unresolved); }
      var ok := InsertRows(NewRows(q));
      return if ok then Ok(q.reviewIds[0]) else Err(Duplicate);
    }

    /** The inserts of one transaction; a violated unique index rolls all of them back. */
    method InsertRows(ms: seq<Mark>) returns (ok: bool)
      modifies this
      ensures ok == Insertable(old(rows), ms)
      ensures rows == if ok then old(rows) + ms else old(rows)
    {
      var before := rows;
      assert before + ms[..0] == before;
      assert ms[0..] == ms;
      for k := 0 to |ms|
        invariant rows == before + ms[..k]
        invariant Insertable(before, ms) <==> Insertable(rows, ms[k..])
      {
        var m := ms[k];
        assert ms[k..][0] == m && ms[k..][1..] == ms[k + 1..];
        assert before + ms[..k] + [m] == before + ms[..k + 1];
        if IdTaken(rows, m.id) || (m.Relation? && KeyTaken(rows, m.room, m.key)) {
          rows := before;
          return false;
        }
        rows := rows + [m];
      }
      assert ms[..|ms|] == ms;
      return true;
    }
  }

  // ---- what every run keeps -----------------------------------------------------------------------------

  ghost predicate EarlierMark(rows: Table, i: nat, id: nat, room: nat)
    requires i <= |rows|
  {
    exists j :: 0 <= j < i && rows[j].Relation? && rows[j].id == id && rows[j].room == room
  }

  ghost predicate EarlierCause(rows: Table, i: nat, id: nat, target: nat)
    requires i <= |rows|
  {
    exists j :: 0 <= j < i && rows[j].Review? && rows[j].id == id && rows[j].target == target
                && rows[j].action in {Correct, Split, Merge}
  }

  /** What row i may point to: always rows that were there before it, in its own room. */
  ghost predicate PointsBack(rows: Table, i: nat, m: Mark)
    requires i <= |rows|
  {
    match m
    case Relation(_, room, _, supersedes, causedBy, _) =>
      if supersedes.None? then causedBy.None?
      else causedBy.Some? && EarlierMark(rows, i, supersedes.value, room)
           && EarlierCause(rows, i, causedBy.value, supersedes.value)
    case Review(_, room, _, target, _) => EarlierMark(rows, i, target, room)
  }

  ghost predicate RowOk(rows: Table, i: nat)
    requires i < |rows|
  {
    PointsBack(rows, i, rows[i])
  }

  /** All successors of a mark were caused by the same review. */
  ghost predicate OneCause(rows: Table) {
    forall a, b | a in rows && b in rows && Up(a).Some? && Up(a) == Up(b) :: a.causedBy == b.causedBy
  }

  ghost predicate KeysUnique(rows: Table) {
    forall i, j | 0 <= i < j < |rows| && rows[i].Relation? && rows[j].Relation? && rows[i].room == rows[j].room ::
      rows[i].key != rows[j].key
  }

  ghost predicate Inv(rows: Table) {
    && IdsDistinct(rows) && KeysUnique(rows) && OneCause(rows)
    && forall i {:trigger RowOk(rows, i)} | 0 <= i < |rows| :: RowOk(rows, i)
  }

  lemma LaterStillPointsBack(rows: Table, m: Mark, i: nat, x: Mark)
    requires i <= |rows| && PointsBack(rows, i, x)
    ensures PointsBack(rows + [m], i, x)
  {
    assert forall j | 0 <= j < i :: (rows + [m])[j] == rows[j];
  }

  lemma AppendKeepsInv(rows: Table, m: Mark)
    requires Inv(rows) && PointsBack(rows, |rows|, m)
    requires !IdTaken(rows, m.id) && (m.Relation? ==> !KeyTaken(rows, m.room, m.key))
    requires SameCause(rows, m)
    ensures Inv(rows + [m])
  {
    var t := rows + [m];
    forall i | 0 <= i < |t| ensures RowOk(t, i) {
      if i < |rows| { assert RowOk(rows, i); }
      LaterStillPointsBack(rows, m, i, t[i]);
    }
    forall i, j | 0 <= i < j < |t| ensures IdsDiffer(t, i, j) {
      assert j < |rows| ==> IdsDiffer(rows, i, j);
      assert t[i] in rows;
    }
    forall i | 0 <= i < |rows| && rows[i].Relation? && m.Relation? && rows[i].room == m.room
      ensures rows[i].key != m.key
    {
      assert rows[i] in rows;
    }
  }

  lemma {:induction false} InsertableAt(rows: Table, ms: seq<Mark>, k: nat)
    requires Insertable(rows, ms) && k < |ms|
    ensures !IdTaken(rows + ms[..k], ms[k].id)
    ensures ms[k].Relation? ==> !KeyTaken(rows + ms[..k], ms[k].room, ms[k].key)
    decreases k
  {
    if k > 0 {
      InsertableAt(rows + [ms[0]], ms[1..], k - 1);
      assert rows + [ms[0]] + ms[1..][..k - 1] == rows + ms[..k];
    } else {
      assert rows + ms[..0] == rows;
    }
  }

  lemma MarkIsEarlier(rows: Table, more: Table, room: nat, id: nat)
    requires IsMark(rows, room, id)
    ensures EarlierMark(rows + more, |rows + more|, id, room)
  {
    var m :| m in rows && m.Relation? && m.id == id && m.room == room;
    var j :| 0 <= j < |rows| && rows[j] == m;
    assert (rows + more)[j] == m;
  }

  /** Each row a review appends points to rows already there, the first review of the batch included. */
  lemma BatchPointsBack(rows: Table, q: Request, ms: seq<Mark>, k: nat)
    requires q.ReviewMark? && ReviewError(rows, q).None? && ms == NewRows(q) && k < |ms|
    ensures var t := rows + ms[..k]; PointsBack(t, |t|, ms[k])
  {
    var sources, t := Sources(q), rows + ms[..k];
    if k < |sources| {
      assert sources[k] in sources;
      MarkIsEarlier(rows, ms[..k], q.room, sources[k]);
    } else {
      MarkIsEarlier(rows, ms[..k], q.room, q.mark);
      assert t[|rows|] == ms[0] == Review(q.reviewIds[0], q.room, q.now, q.mark, q.action);
      assert q.action in {Correct, Split, Merge};
      assert EarlierCause(t, |t|, q.reviewIds[0], q.mark);
    }
  }

  ghost predicate SameCause(rows: Table, m: Mark) {
    forall s | s in rows && Up(m).Some? && Up(s) == Up(m) :: s.causedBy == m.causedBy
  }

  lemma BatchHasOneCause(rows: Table, q: Request, ms: seq<Mark>, k: nat)
    requires q.ReviewMark? && ReviewError(rows, q).None? && ms == NewRows(q) && k < |ms|
    ensures SameCause(rows + ms[..k], ms[k])
  {
    if Up(ms[k]).Some? {
      assert Retires(q.action) && StateIn(rows, q.mark) != Superseded;
      assert !HasSuccessor(rows, q.mark);
      assert forall s | s in rows && Up(s) == Up(ms[k]) :: IsSuccessorOf(s, q.mark);
    }
  }

  lemma NextRowKeepsInv(rows: Table, q: Request, ms: seq<Mark>, k: nat)
    requires q.ReviewMark? && ReviewError(rows, q).None? && ms == NewRows(q) && k < |ms| && Inv(rows + ms[..k])
    ensures Inv(rows + ms[..k + 1])
  {
    BatchPointsBack(rows, q, ms, k);
    InsertableAt(rows, ms, k);
    BatchHasOneCause(rows, q, ms, k);
    AppendKeepsInv(rows + ms[..k], ms[k]);
    PrefixNext(rows, ms, k);
  }

  lemma PrefixNext(rows: Table, ms: seq<Mark>, k: nat)
    requires k < |ms|
    ensures rows + ms[..k + 1] == rows + ms[..k] + [ms[k]]
  {
  }

  lemma BatchKeepsInv(rows: Table, q: Request)
    requires Inv(rows) && q.ReviewMark? && ReviewError(rows, q).None?
    ensures Inv(rows + NewRows(q))
  {
    var ms := NewRows(q);
    assert rows + ms[..0] == rows;
    for k := 0 to |ms|
      invariant Inv(rows + ms[..k])
    {
      NextRowKeepsInv(rows, q, ms, k);
    }
    assert ms[..|ms|] == ms;
  }

  lemma StepKeepsInv(rows: Table, q: Request)
    requires Inv(rows)
    ensures Inv(Step(rows, q))
  {
    if Step(rows, q) != rows {
      match q
      case Create(id, room, key, now) => AppendKeepsInv(rows, Relation(id, room, now, None, None, key));
      case ReviewMark(_, _, _, _, _, _, _) =>
        BatchKeepsInv(rows, q);
    }
  }

  lemma {:induction false} LaterKeepsInv(rows: Table, requests: seq<Request>)
    requires Inv(rows)
    ensures Inv(Run(rows, requests))
  {
    if requests != [] {
      LaterKeepsInv(rows, requests[..|requests| - 1]);
      StepKeepsInv(Run(rows, requests[..|requests| - 1]), requests[|requests| - 1]);
    }
  }

  /** Every table the door can produce satisfies the invariant. */
  lemma {:induction false} RunKeepsInv(requests: seq<Request>)
    ensures Inv(Run([], requests))
  {
    LaterKeepsInv([], requests);
  }

  // ---- requests field by field --------------------------------------------------------------------------------

  ghost predicate Collides(a: Mark, b: Mark) {
    a.id == b.id || (a.Relation? && b.Relation? && a.room == b.room && a.key == b.key)
  }

  ghost predicate Fits(rows: Table, ms: seq<Mark>) {
    && (forall m, x | m in ms && x in rows :: !Collides(m, x))
    && (forall i, j | 0 <= i < j < |ms| :: !Collides(ms[i], ms[j]))
  }

  /** Rows can be inserted together exactly if no two of them, and none of them and a stored row, share an identifier,
      or a key in one room. */
  lemma {:induction false} InsertableExactly(rows: Table, ms: seq<Mark>)
    ensures Insertable(rows, ms) <==> Fits(rows, ms)
    decreases |ms|
  {
    if ms != [] {
      var first, rest := ms[0], ms[1..];
      InsertableExactly(rows + [first], rest);
      assert ms == [first] + rest;
      FirstFits(rows, first, rest);
      FreeExactly(rows, first);
    }
  }

  lemma FreeExactly(rows: Table, m: Mark)
    ensures !IdTaken(rows, m.id) && (m.Relation? ==> !KeyTaken(rows, m.room, m.key))
            <==> forall x | x in rows :: !Collides(m, x)
  {
    if x :| x in rows && x.id == m.id { assert Collides(m, x); }
    if m.Relation? {
      if x :| x in rows && HoldsKey(x, m.room, m.key) { assert Collides(m, x); }
    }
    if x :| x in rows && Collides(m, x) {
      assert x.id == m.id || HoldsKey(x, m.room, m.key);
    }
  }

  lemma FirstFits(rows: Table, first: Mark, rest: seq<Mark>)
    ensures Fits(rows, [first] + rest) <==> (forall x | x in rows :: !Collides(first, x)) && Fits(rows + [first], rest)
  {
    var ms := [first] + rest;
    if Fits(rows, ms) {
      assert ms[0] in ms;
      forall m, x | m in rest && x in rows + [first] ensures !Collides(m, x) {
        assert m in ms;
        var k :| 0 <= k < |rest| && rest[k] == m;
        assert ms[k + 1] == m && !Collides(ms[0], ms[k + 1]);
      }
      forall i, j | 0 <= i < j < |rest| ensures !Collides(rest[i], rest[j]) {
        assert !Collides(ms[i + 1], ms[j + 1]);
      }
    }
    if (forall x | x in rows :: !Collides(first, x)) && Fits(rows + [first], rest) {
      forall i, j | 0 <= i < j < |ms| ensures !Collides(ms[i], ms[j]) {
        assert ms[j] == rest[j - 1] && rest[j - 1] in rest;
        assert i == 0 ==> first in rows + [first] && !Collides(ms[j], first);
      }
      forall m, x | m in ms && x in rows ensures !Collides(m, x) {
        assert x in rows + [first];
      }
    }
  }

  /** The marks that a review is about: the one in its path, and for a merge the others that it names, each once. */
  lemma SourcesInFields(q: Request)
    requires q.ReviewMark?
    ensures |Sources(q)| >= 1 && Sources(q)[0] == q.mark
    ensures forall i, j | 0 <= i < j < |Sources(q)| :: Sources(q)[i] != Sources(q)[j]
    ensures forall id :: id in Sources(q) <==> id == q.mark || (q.action == Merge && id in q.others)
  {
  }

  /** What a review writes: one review row of every source, with the request's stamp, room and action, and behind them
      the replacements (all of a split, the first of a correction or a merge), which replace the reviewed mark and
      name its review as their cause. */
  lemma NewRowsInFields(q: Request, k: nat)
    requires q.ReviewMark? && |q.reviewIds| == |Sources(q)| && k < |NewRows(q)|
    ensures var n, m := |Sources(q)|, NewRows(q)[k];
            && |NewRows(q)| == n + (if q.action == Split then |q.replacements|
                                    else if q.action in {Correct, Merge} && q.replacements != [] then 1 else 0)
            && m.room == q.room && m.created == q.now
            && if k < n then m.Review? && m.id == q.reviewIds[k] && m.target == Sources(q)[k] && m.action == q.action
               else m.Relation? && m.id == q.replacements[k - n].id && m.key == q.replacements[k - n].key
                    && m.supersedes == Some(q.mark) && m.causedBy == Some(q.reviewIds[0])
  {
  }

  /** A mark of the room. */
  ghost predicate InRoom(rows: Table, room: nat, id: nat) {
    exists m :: m in rows && m.Relation? && m.id == id && m.room == room
  }

  /** Why a review is refused, and what holds of it when it is not. */
  lemma RefusalsInFields(rows: Table, q: Request)
    requires q.ReviewMark?
    ensures var state, closing := StateIn(rows, q.mark), q.action in {Supersede, Correct, Split, Merge};
            match ReviewError(rows, q)
            case None =>
              && InRoom(rows, q.room, q.mark)
              && !(closing && state == Superseded)
              && !(q.action == Confirm && state == Confirmed) && !(q.action == Contest && state == Contested)
              && (q.action == Merge ==> exists other :: other in q.others && other != q.mark)
              && (q.action == Merge ==> forall other | other in q.others ::
                    InRoom(rows, q.room, other) && StateIn(rows, other) != Superseded)
              && (q.action in {Correct, Split, Merge} ==> q.replacements != [] && q.replacements[0].resolves)
              && (q.action == Split ==> forall r | r in q.replacements :: r.resolves)
              && |q.reviewIds| == |Sources(q)| && Fits(rows, NewRows(q))
            case Some(NotFound) =>
              !InRoom(rows, q.room, q.mark)
              || (q.action == Merge && exists other :: other in q.others && !InRoom(rows, q.room, other))
            case Some(AlreadySo) =>
              || (closing && state == Superseded)
              || (q.action == Confirm && state == Confirmed) || (q.action == Contest && state == Contested)
              || (q.action == Merge && exists other :: other in q.others && StateIn(rows, other) == Superseded)
            case Some(TooFew) => q.action == Merge && forall other | other in q.others :: other == q.mark
            case Some(NoReplacement) => q.action in {Correct, Split, Merge} && q.replacements == []
            case Some(Unresolved) =>
              q.action in {Correct, Split, Merge} && exists r :: r in q.replacements && !r.resolves
            case Some(Duplicate) => |q.reviewIds| != |Sources(q)| || !Fits(rows, NewRows(q))
  {
    SourcesInFields(q);
    if q.action == Merge { MoreSources(q); }
    if |q.reviewIds| == |Sources(q)| { InsertableExactly(rows, NewRows(q)); }
    forall id ensures InRoom(rows, q.room, id) <==> IsMark(rows, q.room, id) {}
  }

  /** A merge has a second source exactly if it names another mark. */
  lemma MoreSources(q: Request)
    requires q.ReviewMark? && q.action == Merge
    ensures |Sources(q)| >= 2 <==> exists other :: other in q.others && other != q.mark
  {
    if |Sources(q)| >= 2 {
      assert Sources(q)[1] in Sources(q);
    }
    if other :| other in q.others && other != q.mark {
      assert other in Sources(q);
    }
  }

  /** A created mark replaces nothing and carries what was asked for; a taken key or identifier changes nothing. */
  lemma CreateInFields(rows: Table, id: nat, room: nat, key: string, now: nat)
    ensures var after := Step(rows, Create(id, room, key, now));
            if exists m :: m in rows && (m.id == id || (m.Relation? && m.room == room && m.key == key))
            then after == rows
            else after == rows + [Relation(id, room, now, None, None, key)]
  {
    if m :| m in rows && m.Relation? && m.room == room && m.key == key { assert HoldsKey(m, room, key); }
    if KeyTaken(rows, room, key) {
      var m :| m in rows && HoldsKey(m, room, key);
      assert m in rows && m.room == room;
    }
  }
}
