/** The durable claim table for writes that cross a network boundary. */
module ExternalOperations {
  // Claim with a lease, finish by attempt number, replay once succeeded. `R` is the type of the recorded result.

  import opened Common

  const LEASE_SECONDS := 120

  datatype Status = Pending | Succeeded | Failed

  /** Where the acceptance stamp goes: a proposal slot in a message's metadata. */
  datatype Slot = Slot(message: string, name: string)

  datatype Operation<R> = Operation(
    id: nat, room: string, kind: string, key: string, initiatedBy: string, slot: Option<Slot>,
    status: Status, attempt: nat, leaseExpires: int, result: Option<R>)

  datatype Request = Request(
    room: string, kind: string, key: string, initiatedBy: string,
    message: Option<string>, slotName: Option<string>)
  {
    predicate Whole() { message.Some? <==> slotName.Some? }

    function Target(): Option<Slot> {
      if message.Some? && slotName.Some? then Some(Slot(message.value, slotName.value)) else None
    }
  }

  datatype Outcome<R> =
    | Granted(op: Operation<R>)
    | Replayed(op: Operation<R>)
    | Busy(op: Operation<R>)
    | WrongCoordinates
    | HalfSlot

  /** The operations table in insertion order, and the stamps in message metadata. */
  datatype Db<R> = Db(rows: seq<Operation<R>>, stamps: map<Slot, string>)

  predicate SameCoordinates<R>(a: Operation<R>, b: Operation<R>) {
    a.id == b.id && a.room == b.room && a.kind == b.kind && a.key == b.key
    && a.initiatedBy == b.initiatedBy && a.slot == b.slot
  }

  predicate Answers<R>(row: Operation<R>, req: Request) {
    row.room == req.room && row.kind == req.kind && row.key == req.key && row.slot == req.Target()
  }

  // ---- one transaction, as a function of the table -----------------------------------------

  function FindKey<R>(rows: seq<Operation<R>>, key: string): (i: nat)
    ensures i <= |rows| && (i < |rows| ==> rows[i].key == key)
    ensures forall k | 0 <= k < i :: rows[k].key != key
  {
    if rows == [] || rows[0].key == key then 0 else 1 + FindKey(rows[1..], key)
  }

  function FindSlot<R>(rows: seq<Operation<R>>, slot: Option<Slot>): (i: nat)
    ensures i <= |rows| && (i < |rows| ==> slot.Some? && rows[i].slot == slot)
    ensures slot.Some? ==> forall k | 0 <= k < i :: rows[k].slot != slot
    ensures slot.None? ==> i == |rows|
  {
    if rows == [] then 0
    else if slot.Some? && rows[0].slot == slot then 0
    else 1 + FindSlot(rows[1..], slot)
  }

  /** The row that a claim collides with: by key first, then by slot; |rows| when there is none. */
  function Colliding<R>(rows: seq<Operation<R>>, req: Request): (i: nat)
    ensures i <= |rows|
  {
    var i := FindKey(rows, req.key);
    if i < |rows| then i else FindSlot(rows, req.Target())
  }

  function Fresh<R>(id: nat, req: Request, now: int): Operation<R> {
    Operation(id, req.room, req.kind, req.key, req.initiatedBy, req.Target(), Pending, 1, now + LEASE_SECONDS, None)
  }

  function Reclaimed<R>(row: Operation<R>, now: int): Operation<R> {
    row.(status := Pending, attempt := row.attempt + 1, leaseExpires := now + LEASE_SECONDS, result := None)
  }

  function Claim<R>(db: Db<R>, req: Request, now: int): (Db<R>, Outcome<R>) {
    if !req.Whole() then (db, HalfSlot)
    else
      var i := Colliding(db.rows, req);
      if i == |db.rows| then
        var op := Fresh(i, req, now);
        (db.(rows := db.rows + [op]), Granted(op))
      else
        var row := db.rows[i];
        if !Answers(row, req) then (db, WrongCoordinates)
        else if row.status == Succeeded then (db, Replayed(row))
        else if row.status == Pending && row.leaseExpires > now then (db, Busy(row))
        else
          var op := Reclaimed(row, now);
          (db.(rows := db.rows[i := op]), Granted(op))
  }

  /** The guard of both finishing updates: the row is pending and at the caller's attempt. */
  predicate Current<R>(rows: seq<Operation<R>>, op: Operation<R>) {
    op.id < |rows| && rows[op.id].status == Pending && rows[op.id].attempt == op.attempt
  }

  function Stamped(stamps: map<Slot, string>, slot: Option<Slot>, who: string): map<Slot, string> {
    if slot.Some? then stamps[slot.value := who] else stamps
  }

  function Succeed<R>(db: Db<R>, op: Operation<R>, result: R): Db<R> {
    if !Current(db.rows, op) then db
    else Db(db.rows[op.id := db.rows[op.id].(status := Succeeded, result := Some(result))],
            Stamped(db.stamps, op.slot, op.initiatedBy))
  }

  function Fail<R>(db: Db<R>, op: Operation<R>): Db<R> {
    if !Current(db.rows, op) then db
    else db.(rows := db.rows[op.id := db.rows[op.id].(status := Failed)])
  }

  // ---- the table as the transactions update it -----------------------------------------------

  class OperationTable<R(==)> {
    var rows: seq<Operation<R>>
    var stamps: map<Slot, string>

    ghost function State(): Db<R>
      reads this
    {
      Db(rows, stamps)
    }

    constructor ()
      ensures State() == Db([], map[])
    {
      rows, stamps := [], map[];
    }

    method ClaimOperation(req: Request, now: int) returns (outcome: Outcome<R>)
      modifies this
      ensures (State(), outcome) == Claim(old(State()), req, now)
    {
      if req.message.None? != req.slotName.None? { return HalfSlot; }
      var slot := req.Target();
      var i := 0;
      while i < |rows| && rows[i].key != req.key
        invariant i <= |rows| && forall k | 0 <= k < i :: rows[k].key != req.key
      {
        i := i + 1;
      }
      if i == |rows| && slot.Some? {
        i := 0;
        while i < |rows| && rows[i].slot != slot
          invariant i <= |rows| && forall k | 0 <= k < i :: rows[k].slot != slot
        {
          i := i + 1;
        }
      }
      if i == |rows| {
        var op := Operation(i, req.room, req.kind, req.key, req.initiatedBy, slot, Pending, 1,
                            now + LEASE_SECONDS, None);
        rows := rows + [op];
        return Granted(op);
      }
      var row := rows[i];
      if (row.room, row.kind, row.key, row.slot) != (req.room, req.kind, req.key, slot) { return WrongCoordinates; }
      if row.status == Succeeded { return Replayed(row); }
      if row.status == Pending && row.leaseExpires > now { return Busy(row); }
      row := row.(status := Pending, attempt := row.attempt + 1, leaseExpires := now + LEASE_SECONDS, result := None);
      rows := rows[i := row];
      return Granted(row);
    }

    /** `done` is false, and nothing is written, for anyone but the holder of the current pending attempt. */
    method SucceedOperation(op: Operation<R>, result: R) returns (done: bool)
      modifies this
      ensures State() == Succeed(old(State()), op, result) && done == Current(old(rows), op)
    {
      if op.id >= |rows| || rows[op.id].status != Pending || rows[op.id].attempt != op.attempt { return false; }
      rows := rows[op.id := rows[op.id].(status := Succeeded, result := Some(result))];
      if op.slot.Some? {
        stamps := stamps[op.slot.value := op.initiatedBy];
      }
      return true;
    }

    method FailOperation(op: Operation<R>)
      modifies this
      ensures State() == Fail(old(State()), op)
    {
      if op.id < |rows| && rows[op.id].status == Pending && rows[op.id].attempt == op.attempt {
        rows := rows[op.id := rows[op.id].(status := Failed)];
      }
    }
  }

  // ---- whole runs: any number of workers, any clocks, any interleaving -------------------------

  /** A claim that was granted: the snapshot handed out, who asked, and by which clock reading. */
  datatype Grant<R> = Grant(op: Operation<R>, asker: string, at: int)

  /** The table with the history of its grants and of the attempts their holders gave up. */
  datatype Log<R> = Log(db: Db<R>, grants: seq<Grant<R>>, released: set<(nat, nat)>)

  /** Workers finish with a snapshot that some claim granted, however long ago. */
  datatype Event<R> = ClaimBy(req: Request, now: int) | SucceedBy(g: nat, result: R) | FailBy(g: nat)

  function Step<R>(s: Log<R>, e: Event<R>): Log<R> {
    match e
    case ClaimBy(req, now) =>
      var (db, outcome) := Claim(s.db, req, now);
      s.(db := db,
         grants := if outcome.Granted? then s.grants + [Grant(outcome.op, req.initiatedBy, now)] else s.grants)
    case SucceedBy(g, result) =>
      if g >= |s.grants| then s else s.(db := Succeed(s.db, s.grants[g].op, result))
    case FailBy(g) =>
      if g >= |s.grants| then s
      else
        var op := s.grants[g].op;
        s.(db := Fail(s.db, op),
           released := if Current(s.db.rows, op) then s.released + {(op.id, op.attempt)} else s.released)
  }

  function Run<R>(s: Log<R>, events: seq<Event<R>>): Log<R> {
    if events == [] then s else Step(Run(s, events[..|events| - 1]), events[|events| - 1])
  }

  ghost predicate Indexed<R>(rows: seq<Operation<R>>) {
    && (forall i | 0 <= i < |rows| :: rows[i].id == i && rows[i].attempt >= 1)
    && (forall i | 0 <= i < |rows| :: rows[i].status == Succeeded <==> rows[i].result.Some?)
    && (forall i, j | 0 <= i < j < |rows| :: rows[i].key != rows[j].key)
    && (forall i, j | 0 <= i < j < |rows| :: rows[i].slot.Some? ==> rows[i].slot != rows[j].slot)
  }

  ghost predicate HasSlot<R>(rows: seq<Operation<R>>, slot: Slot) {
    exists i :: 0 <= i < |rows| && rows[i].slot == Some(slot)
  }

  /** A slot is stamped exactly when its operation has succeeded, with the name on the row. */
  ghost predicate StampsExact<R>(db: Db<R>) {
    && (forall i | 0 <= i < |db.rows| && db.rows[i].slot.Some? ::
          var slot := db.rows[i].slot.value;
          (slot in db.stamps <==> db.rows[i].status == Succeeded)
          && (slot in db.stamps ==> db.stamps[slot] == db.rows[i].initiatedBy))
    && (forall slot {:trigger HasSlot(db.rows, slot)} | slot in db.stamps :: HasSlot(db.rows, slot))
  }

  ghost predicate GrantOk<R>(s: Log<R>, g: Grant<R>) {
    && g.op.id < |s.db.rows|
    && SameCoordinates(g.op, s.db.rows[g.op.id])
    && 1 <= g.op.attempt <= s.db.rows[g.op.id].attempt
    && (g.op.attempt == 1 ==> g.asker == g.op.initiatedBy)
    && g.op.leaseExpires == g.at + LEASE_SECONDS
  }

  ghost predicate GrantsOk<R>(s: Log<R>) {
    && (forall g {:trigger s.grants[g]} | 0 <= g < |s.grants| :: GrantOk(s, s.grants[g]))
    && (forall i {:trigger HasLatest(s, i)} | 0 <= i < |s.db.rows| :: HasLatest(s, i))
    && (forall i {:trigger HasFirst(s, i)} | 0 <= i < |s.db.rows| :: HasFirst(s, i))
    && (forall i | 0 <= i < |s.db.rows| && s.db.rows[i].status == Failed ::
          (i, s.db.rows[i].attempt) in s.released)
  }

  /** Grant g is the newest one of row i: it carries the row's attempt and lease. */
  ghost predicate Latest<R>(s: Log<R>, i: nat, g: nat)
    requires i < |s.db.rows|
  {
    && g < |s.grants| && s.grants[g].op.id == i
    && s.grants[g].op.attempt == s.db.rows[i].attempt
    && s.grants[g].op.leaseExpires == s.db.rows[i].leaseExpires
  }

  ghost predicate HasLatest<R>(s: Log<R>, i: nat)
    requires i < |s.db.rows|
  {
    exists g: nat :: Latest(s, i, g)
  }

  /** Grant g is the first one of row i. */
  ghost predicate First<R>(s: Log<R>, i: nat, g: nat) {
    g < |s.grants| && s.grants[g].op.id == i && s.grants[g].op.attempt == 1
  }

  ghost predicate HasFirst<R>(s: Log<R>, i: nat) {
    exists g: nat :: First(s, i, g)
  }

  /** Later grants of one operation carry larger attempts, and the next attempt is never granted
      under a lease that is still running unless the holder gave that attempt up. */
  ghost predicate GrantsOrdered<R>(s: Log<R>) {
    forall g, h {:trigger s.grants[g], s.grants[h]}
      | 0 <= g < h < |s.grants| && s.grants[g].op.id == s.grants[h].op.id ::
      && s.grants[g].op.attempt < s.grants[h].op.attempt
      && (s.grants[h].op.attempt == s.grants[g].op.attempt + 1 ==>
            (s.grants[g].op.id, s.grants[g].op.attempt) in s.released
            || s.grants[g].op.leaseExpires <= s.grants[h].at)
  }

  ghost predicate Inv<R>(s: Log<R>) {
    Indexed(s.db.rows) && StampsExact(s.db) && GrantsOk(s) && GrantsOrdered(s)
  }

  function Empty<R>(): Log<R> { Log(Db([], map[]), [], {}) }

  /** Row i is rewritten in place: same coordinates, and neither attempt nor result go astray. */
  ghost predicate Rewrites<R>(rows: seq<Operation<R>>, rows': seq<Operation<R>>, i: nat) {
    && i < |rows| && |rows'| == |rows| && rows' == rows[i := rows'[i]]
    && SameCoordinates(rows[i], rows'[i]) && rows[i].attempt <= rows'[i].attempt
    && (rows'[i].status == Succeeded <==> rows'[i].result.Some?)
  }

  lemma RewriteKeepsIndexed<R>(rows: seq<Operation<R>>, rows': seq<Operation<R>>, i: nat)
    requires Indexed(rows) && Rewrites(rows, rows', i)
    ensures Indexed(rows')
  {
  }

  lemma RewriteKeepsStamps<R>(db: Db<R>, db': Db<R>, i: nat)
    requires Indexed(db.rows) && StampsExact(db) && Rewrites(db.rows, db'.rows, i)
    requires db.rows[i].status != Succeeded
    requires db'.stamps == if db'.rows[i].status == Succeeded
                           then Stamped(db.stamps, db.rows[i].slot, db.rows[i].initiatedBy) else db.stamps
    ensures StampsExact(db')
  {
    forall slot | slot in db'.stamps ensures HasSlot(db'.rows, slot) {
      if slot in db.stamps {
        assert HasSlot(db.rows, slot);
        var j :| 0 <= j < |db.rows| && db.rows[j].slot == Some(slot);
        assert db'.rows[j].slot == Some(slot);
      } else {
        assert db'.rows[i].slot == Some(slot);
      }
    }
  }

  /** Settling row i keeps what is known of the grants. */
  lemma SettleKeepsGrants<R>(s: Log<R>, t: Log<R>, i: nat)
    requires GrantsOk(s) && Rewrites(s.db.rows, t.db.rows, i)
    requires t.grants == s.grants && s.released <= t.released
    requires t.db.rows[i].attempt == s.db.rows[i].attempt && t.db.rows[i].leaseExpires == s.db.rows[i].leaseExpires
    requires t.db.rows[i].status == Failed ==> (i, t.db.rows[i].attempt) in t.released
    ensures GrantsOk(t)
  {
    forall k | 0 <= k < |t.db.rows| ensures HasLatest(t, k) && HasFirst(t, k) {
      assert HasLatest(s, k) && HasFirst(s, k);
      var g: nat, f: nat :| Latest(s, k, g) && First(s, k, f);
      assert Latest(t, k, g) && First(t, k, f);
    }
    forall g | 0 <= g < |t.grants| ensures GrantOk(t, t.grants[g]) {
      assert GrantOk(s, s.grants[g]);
    }
  }

  lemma FinishKeepsInv<R>(s: Log<R>, e: Event<R>)
    requires Inv(s) && !e.ClaimBy?
    ensures Inv(Step(s, e))
  {
    var t := Step(s, e);
    if t != s {
      var i := s.grants[e.g].op.id;
      assert GrantOk(s, s.grants[e.g]);
      RewriteKeepsIndexed(s.db.rows, t.db.rows, i);
      RewriteKeepsStamps(s.db, t.db, i);
      SettleKeepsGrants(s, t, i);
    }
  }

  /** The newest grant of row i outranks every earlier one of that row. */
  lemma LatestOutranks<R>(s: Log<R>, i: nat, g: nat)
    requires GrantsOk(s) && GrantsOrdered(s) && i < |s.db.rows| && g < |s.grants| && s.grants[g].op.id == i
    ensures s.grants[g].op.attempt <= s.db.rows[i].attempt
    ensures s.grants[g].op.attempt == s.db.rows[i].attempt ==> Latest(s, i, g)
  {
    assert GrantOk(s, s.grants[g]) && HasLatest(s, i);
    var l: nat :| Latest(s, i, l);
    assert l < g || g < l || l == g;
  }

  /** A granted claim adds the newest grant `n` of row i and keeps what is known of the others. */
  lemma GrantKeepsGrants<R>(s: Log<R>, t: Log<R>, i: nat)
    requires GrantsOk(s) && GrantsOrdered(s) && t.released == s.released
    requires |t.grants| == |s.grants| + 1 && t.grants[..|s.grants|] == s.grants
    requires GrantOk(t, t.grants[|s.grants|]) && i < |t.db.rows| && Latest(t, i, |s.grants|)
    requires t.db.rows[i].status == Pending
    requires |t.db.rows| >= |s.db.rows| && forall k | 0 <= k < |s.db.rows| && k != i :: t.db.rows[k] == s.db.rows[k]
    requires if i < |s.db.rows|
             then |t.db.rows| == |s.db.rows| && SameCoordinates(s.db.rows[i], t.db.rows[i])
                  && t.db.rows[i].attempt == s.db.rows[i].attempt + 1
                  && (s.db.rows[i].status == Failed
                      || (s.db.rows[i].status == Pending && s.db.rows[i].leaseExpires <= t.grants[|s.grants|].at))
             else |t.db.rows| == |s.db.rows| + 1 && t.db.rows[i].attempt == 1
    ensures GrantsOk(t) && GrantsOrdered(t)
  {
    var n := |s.grants|;
    assert forall g | 0 <= g < n :: t.grants[g] == s.grants[g];
    forall k | 0 <= k < |t.db.rows| ensures HasLatest(t, k) && HasFirst(t, k) {
      if k < |s.db.rows| {
        assert HasLatest(s, k) && HasFirst(s, k);
        var g: nat, f: nat :| Latest(s, k, g) && First(s, k, f);
        assert Latest(t, k, if k == i then n else g);
        assert First(t, k, f);
      } else {
        assert Latest(t, k, n) && First(t, k, n);
      }
    }
    forall g | 0 <= g < |t.grants| ensures GrantOk(t, t.grants[g]) {
      if g < n { assert GrantOk(s, s.grants[g]); }
    }
    forall g, h | 0 <= g < h < |t.grants| && t.grants[g].op.id == t.grants[h].op.id
      ensures t.grants[g].op.attempt < t.grants[h].op.attempt
      ensures t.grants[h].op.attempt == t.grants[g].op.attempt + 1 ==>
                (t.grants[g].op.id, t.grants[g].op.attempt) in t.released
                || t.grants[g].op.leaseExpires <= t.grants[h].at
    {
      assert GrantOk(s, s.grants[g]);
      if h == n {
        LatestOutranks(s, i, g);
      } else {
        assert s.grants[g].op.id == s.grants[h].op.id;
      }
    }
  }

  lemma ClaimKeepsInv<R>(s: Log<R>, req: Request, now: int)
    requires Inv(s)
    ensures Inv(Step(s, ClaimBy(req, now)))
  {
    var t := Step(s, ClaimBy(req, now));
    if t.grants != s.grants {
      var n := |s.grants|;
      var i := t.grants[n].op.id;
      if i < |s.db.rows| {
        RewriteKeepsIndexed(s.db.rows, t.db.rows, i);
        RewriteKeepsStamps(s.db, t.db, i);
      } else {
        InsertKeepsTable(s.db, req, now);
      }
      GrantKeepsGrants(s, t, i);
    }
  }

  /** An insert that collides with nothing: no row has its key, and none its slot. */
  lemma NothingCollides<R>(rows: seq<Operation<R>>, req: Request)
    requires Colliding(rows, req) == |rows|
    ensures forall i | 0 <= i < |rows| ::
              rows[i].key != req.key && (req.Target().Some? ==> rows[i].slot != req.Target())
  {
  }

  lemma InsertKeepsIndexed<R>(rows: seq<Operation<R>>, op: Operation<R>)
    requires Indexed(rows) && op.id == |rows| && op.attempt >= 1 && op.status == Pending && op.result.None?
    requires forall i | 0 <= i < |rows| :: rows[i].key != op.key && (op.slot.Some? ==> rows[i].slot != op.slot)
    ensures Indexed(rows + [op])
  {
  }

  lemma InsertKeepsStamps<R>(db: Db<R>, op: Operation<R>)
    requires StampsExact(db) && op.status == Pending
    requires forall i | 0 <= i < |db.rows| :: op.slot.Some? ==> db.rows[i].slot != op.slot
    ensures StampsExact(db.(rows := db.rows + [op]))
  {
    var db' := db.(rows := db.rows + [op]);
    forall slot | slot in db'.stamps ensures HasSlot(db'.rows, slot) && op.slot != Some(slot) {
      assert HasSlot(db.rows, slot);
      var j :| 0 <= j < |db.rows| && db.rows[j].slot == Some(slot);
      assert db'.rows[j].slot == Some(slot);
    }
  }

  lemma InsertKeepsTable<R>(db: Db<R>, req: Request, now: int)
    requires Indexed(db.rows) && StampsExact(db)
    requires req.Whole() && Colliding(db.rows, req) == |db.rows|
    ensures Indexed(Claim(db, req, now).0.rows) && StampsExact(Claim(db, req, now).0)
  {
    var op: Operation<R> := Fresh(|db.rows|, req, now);
    NothingCollides(db.rows, req);
    InsertKeepsIndexed(db.rows, op);
    InsertKeepsStamps(db, op);
  }

  /** Every reachable state satisfies the invariant. */
  lemma {:induction false} RunKeepsInv<R>(events: seq<Event<R>>)
    ensures Inv(Run(Empty(), events))
  {
    if events != [] {
      var s := Run(Empty(), events[..|events| - 1]);
      RunKeepsInv(events[..|events| - 1]);
      match events[|events| - 1]
      case ClaimBy(req, now) => ClaimKeepsInv(s, req, now);
      case _ => FinishKeepsInv(s, events[|events| - 1]);
    }
  }

  // ---- what a worker or an operator can rely on -------------------------------------------------

  /** What no event ever takes back: coordinates, the attempt count, and a success with its result. */
  ghost predicate Continues<R>(s: Log<R>, t: Log<R>) {
    && |s.db.rows| <= |t.db.rows| && s.grants <= t.grants
    && forall i | 0 <= i < |s.db.rows| ::
         && SameCoordinates(s.db.rows[i], t.db.rows[i])
         && s.db.rows[i].attempt <= t.db.rows[i].attempt
         && (s.db.rows[i].status == Succeeded ==> t.db.rows[i] == s.db.rows[i])
  }

  lemma StepContinues<R>(s: Log<R>, e: Event<R>)
    ensures Continues(s, Step(s, e))
  {
    match e
    case ClaimBy(req, now) =>
      var i := Colliding(s.db.rows, req);
      assert forall k | 0 <= k < |s.db.rows| && k != i :: Step(s, e).db.rows[k] == s.db.rows[k];
    case SucceedBy(_, _) =>
    case FailBy(_) =>
  }

  lemma ContinuesTransitive<R>(s: Log<R>, t: Log<R>, u: Log<R>)
    requires Continues(s, t) && Continues(t, u)
    ensures Continues(s, u)
  {
  }

  lemma {:induction false} RunContinues<R>(s: Log<R>, events: seq<Event<R>>)
    ensures Continues(s, Run(s, events))
  {
    if events != [] {
      var t := Run(s, events[..|events| - 1]);
      RunContinues(s, events[..|events| - 1]);
      StepContinues(t, events[|events| - 1]);
      ContinuesTransitive(s, t, Run(s, events));
    }
  }

  /** A row becomes succeeded only by the holder of its current attempt, while it is pending. */
  lemma OnlyTheCurrentHolderFinishes<R>(s: Log<R>, e: Event<R>, i: nat)
    requires Inv(s) && i < |s.db.rows|
    requires s.db.rows[i].status != Step(s, e).db.rows[i].status
    requires Step(s, e).db.rows[i].status != Pending
    ensures !e.ClaimBy? && Latest(s, i, e.g) && s.db.rows[i].status == Pending
  {
    assert GrantOk(s, s.grants[e.g]);
    LatestOutranks(s, i, e.g);
  }

  /** A worker whose attempt has been taken over, or whose operation is settled, changes nothing. */
  lemma StaleCallsChangeNothing<R>(s: Log<R>, e: Event<R>, h: nat)
    requires Inv(s) && !e.ClaimBy? && e.g < |s.grants|
    requires (e.g < h < |s.grants| && s.grants[h].op.id == s.grants[e.g].op.id)
             || s.db.rows[s.grants[e.g].op.id].status != Pending
    ensures Step(s, e) == s
  {
    assert GrantOk(s, s.grants[e.g]);
    if e.g < h < |s.grants| && s.grants[h].op.id == s.grants[e.g].op.id {
      assert GrantOk(s, s.grants[h]);
    }
  }

  /** While a pending lease runs, no claim for that operation is granted by any clock before its end. */
  lemma NoSecondClaimUnderALease<R>(s: Log<R>, i: nat, req: Request, now: int)
    requires Inv(s) && i < |s.db.rows| && s.db.rows[i].status == Pending && now < s.db.rows[i].leaseExpires
    requires req.key == s.db.rows[i].key || (req.Target().Some? && req.Target() == s.db.rows[i].slot)
    ensures Step(s, ClaimBy(req, now)).db.rows[i] == s.db.rows[i]
    ensures Step(s, ClaimBy(req, now)).grants == s.grants
            || Step(s, ClaimBy(req, now)).grants[|s.grants|].op.id != i
    ensures req.Whole() && Answers(s.db.rows[i], req) ==> Claim(s.db, req, now).1 == Busy(s.db.rows[i])
  {
  }

  /** Two grants of one operation overlap in time only if the earlier holder gave its attempt up. */
  lemma {:induction false} LeasesDoNotOverlap<R>(events: seq<Event<R>>, g: nat, h: nat)
    requires var s := Run(Empty(), events);
             g < h < |s.grants| && s.grants[g].op.id == s.grants[h].op.id
             && s.grants[h].op.attempt == s.grants[g].op.attempt + 1
    ensures var s := Run(Empty(), events);
            (s.grants[g].op.id, s.grants[g].op.attempt) in s.released
            || s.grants[g].at + LEASE_SECONDS <= s.grants[h].at
  {
    RunKeepsInv(events);
    var s := Run(Empty(), events);
    assert GrantOk(s, s.grants[g]);
  }

  /** The stamp is there exactly when the operation has succeeded, and names whoever claimed first. */
  lemma {:induction false} StampNamesTheFirstClaimant<R>(events: seq<Event<R>>, i: nat)
    requires i < |Run(Empty(), events).db.rows| && Run(Empty(), events).db.rows[i].slot.Some?
    ensures var s := Run(Empty(), events);
            var slot := s.db.rows[i].slot.value;
            && (slot in s.db.stamps <==> s.db.rows[i].status == Succeeded)
            && (slot in s.db.stamps ==>
                  exists g: nat :: First(s, i, g) && s.db.stamps[slot] == s.grants[g].asker
                              && forall h | 0 <= h < g :: s.grants[h].op.id != i)
  {
    RunKeepsInv(events);
    var s := Run(Empty(), events);
    assert HasFirst(s, i);
    var g: nat :| First(s, i, g);
    assert GrantOk(s, s.grants[g]);
    forall h | 0 <= h < g ensures s.grants[h].op.id != i {
      assert GrantOk(s, s.grants[h]);
    }
  }

  // ---- claims and finishing calls, field by field --------------------------------------------------------------

  /** The row carries the room, the kind, the key and the proposal slot that were asked for. */
  ghost predicate AsAsked<R>(op: Operation<R>, req: Request) {
    && op.room == req.room && op.kind == req.kind && op.key == req.key
    && (if op.slot.None? then req.message.None? && req.slotName.None?
        else req.message == Some(op.slot.value.message) && req.slotName == Some(op.slot.value.name))
  }

  /** A stored row with the same key, or for the same proposal slot. */
  ghost predicate Conflicts<R>(op: Operation<R>, req: Request) {
    op.key == req.key
    || (req.message.Some? && req.slotName.Some? && op.slot == Some(Slot(req.message.value, req.slotName.value)))
  }

  /** Every claim in fields: what it answers, on which condition, and what it leaves. */
  lemma ClaimInFields<R>(db: Db<R>, req: Request, now: int)
    ensures var (after, outcome) := Claim(db, req, now);
            && after.stamps == db.stamps
            && match outcome
               case HalfSlot => req.message.Some? != req.slotName.Some? && after == db
               case WrongCoordinates =>
                 after == db && exists op :: op in db.rows && Conflicts(op, req) && !AsAsked(op, req)
               case Replayed(op) => after == db && op in db.rows && AsAsked(op, req) && op.status == Succeeded
               case Busy(op) =>
                 && after == db && op in db.rows && AsAsked(op, req)
                 && op.status == Pending && now < op.leaseExpires
               case Granted(op) =>
                 && AsAsked(op, req) && op.status == Pending && op.leaseExpires == now + 120 && op.result == None
                 && if |after.rows| > |db.rows| then
                      && after.rows == db.rows + [op] && op.id == |db.rows| && op.attempt == 1
                      && op.initiatedBy == req.initiatedBy && forall was | was in db.rows :: !Conflicts(was, req)
                    else exists i ::
                           0 <= i < |db.rows| && TakenOver(db.rows[i], op, now) && after.rows == db.rows[i := op]
  {
    if req.Whole() {
      var i := Colliding(db.rows, req);
      if i < |db.rows| {
        assert db.rows[i] in db.rows && Conflicts(db.rows[i], req);
        assert Answers(db.rows[i], req) <==> AsAsked(db.rows[i], req);
        var op := Reclaimed(db.rows[i], now);
        assert Answers(db.rows[i], req) ==> AsAsked(op, req);
        assert db.rows[i].status == Failed || (db.rows[i].status == Pending && db.rows[i].leaseExpires <= now)
               ==> TakenOver(db.rows[i], op, now);
      } else {
        assert AsAsked(Fresh<R>(i, req, now), req);
        assert forall k | 0 <= k < |db.rows| :: !Conflicts(db.rows[k], req);
      }
    }
  }

  /** The next attempt at an operation that failed or whose lease has run out: who began it stays. */
  ghost predicate TakenOver<R>(was: Operation<R>, op: Operation<R>, now: int) {
    && (was.status == Failed || (was.status == Pending && was.leaseExpires <= now))
    && op.id == was.id && op.attempt == was.attempt + 1 && op.initiatedBy == was.initiatedBy
  }

  /** A finishing call counts just for the holder of the current attempt: a success records the result and stamps the
      slot with the name of whoever began, a failure releases the row, and everything else stays. */
  lemma FinishInFields<R>(db: Db<R>, op: Operation<R>, result: R, i: nat)
    requires i < |db.rows|
    ensures var holds := i == op.id && db.rows[i].status == Pending && db.rows[i].attempt == op.attempt;
            && |Succeed(db, op, result).rows| == |Fail(db, op).rows| == |db.rows|
            && Succeed(db, op, result).rows[i]
               == (if holds then db.rows[i].(status := Succeeded, result := Some(result)) else db.rows[i])
            && Fail(db, op).rows[i] == (if holds then db.rows[i].(status := Failed) else db.rows[i])
            && Fail(db, op).stamps == db.stamps
            && (i == op.id ==>
                  Succeed(db, op, result).stamps == if holds && op.slot.Some?
                                                    then db.stamps[op.slot.value := op.initiatedBy] else db.stamps)
  {
  }
}
