/** What a branch of a conversation inherits, in two readings. */
module Ancestry {
  // The recursive reading of operations.py beside the set-based one behind the message page. A thread's id is its
  // position; sequence numbers are per thread.

  import opened Common

  datatype Thread = Thread(parent: Option<nat>, fork: Option<nat>)

  datatype Message = Message(id: nat, thread: nat, sequence: nat, created: int, deleted: bool)

  datatype Db = Db(threads: seq<Thread>, messages: seq<Message>)

  /** A thread forks from a thread that is already there, and message ids are unique. */
  ghost predicate Wf(db: Db) {
    && (forall t | 0 <= t < |db.threads| && db.threads[t].parent.Some? :: db.threads[t].parent.value < t)
    && (forall i, j | 0 <= i < j < |db.messages| :: db.messages[i].id != db.messages[j].id)
  }

  function SequenceOf(messages: seq<Message>, id: Option<nat>): (s: Option<nat>)
    ensures s.Some? ==> id.Some? && exists m :: m in messages && m.id == id.value && m.sequence == s.value
  {
    if messages == [] then None
    else if id == Some(messages[0].id) then
      assert messages[0] in messages;
      Some(messages[0].sequence)
    else
      assert messages == [messages[0]] + messages[1..];
      SequenceOf(messages[1..], id)
  }

  /** The sequence number at which thread t forked, if its fork point exists. */
  function ForkOf(db: Db, t: nat): Option<nat>
    requires t < |db.threads|
  {
    SequenceOf(db.messages, db.threads[t].fork)
  }

  // ---- the recursive reading -------------------------------------------------------------------------

  function Filter(p: Message -> bool, s: seq<Message>): (r: seq<Message>)
    ensures forall x :: x in r <==> x in s && p(x)
  {
    if s == [] then []
    else
      assert s == [s[0]] + s[1..];
      if p(s[0]) then [s[0]] + Filter(p, s[1..]) else Filter(p, s[1..])
  }

  function InsertBySequence(s: seq<Message>, m: Message): (r: seq<Message>)
    ensures forall x :: x in r <==> x == m || x in s
  {
    if s == [] || m.sequence < s[0].sequence then [m] + s
    else
      assert s == [s[0]] + s[1..];
      [s[0]] + InsertBySequence(s[1..], m)
  }

  function SortBySequence(s: seq<Message>): (r: seq<Message>)
    ensures forall x :: x in r <==> x in s
  {
    if s == [] then []
    else
      assert s == [s[0]] + s[1..];
      InsertBySequence(SortBySequence(s[1..]), s[0])
  }

  function OwnMessages(db: Db, t: nat): seq<Message> {
    SortBySequence(Filter((m: Message) => m.thread == t && !m.deleted, db.messages))
  }

  datatype Failure = ThreadNotFound | NoForkPoint

  /** get_thread_messages: NoForkPoint stands for the comparison with a missing sequence number. */
  function ThreadMessages(db: Db, t: nat): Result<seq<Message>, Failure>
    requires Wf(db)
  {
    if t >= |db.threads| then Err(ThreadNotFound)
    else if db.threads[t].parent.None? then Ok(OwnMessages(db, t))
    else
      var above := ThreadMessages(db, db.threads[t].parent.value);
      if above.Err? then above
      else
        var cut := ForkOf(db, t);
        if cut.None? && above.value != [] then Err(NoForkPoint)
        else Ok(Filter((m: Message) => cut.Some? && m.sequence <= cut.value, above.value) + OwnMessages(db, t))
  }

  // ---- the set-based reading ---------------------------------------------------------------------------

  const MAX_DEPTH := 50

  datatype AncestorRow = AncestorRow(thread: nat, depth: nat, childFork: Option<nat>)

  /** The recursive query over threads: one row for each ancestor, with its child's fork point. */
  function AncestorRows(db: Db, t: nat, depth: nat, childFork: Option<nat>): seq<AncestorRow>
    decreases MAX_DEPTH + 1 - depth
  {
    if t >= |db.threads| then []
    else if db.threads[t].parent.Some? && depth < MAX_DEPTH
    then [AncestorRow(t, depth, childFork)]
         + AncestorRows(db, db.threads[t].parent.value, depth + 1, db.threads[t].fork)
    else [AncestorRow(t, depth, childFork)]
  }

  predicate Admits(db: Db, row: AncestorRow, m: Message) {
    && row.thread == m.thread
    && (row.depth == 0
        || var cut := SequenceOf(db.messages, row.childFork); m.sequence <= if cut.Some? then cut.value else m.sequence)
  }

  predicate Admitted(db: Db, rows: seq<AncestorRow>, m: Message) {
    exists row :: row in rows && Admits(db, row, m)
  }

  lemma AdmittedByFirst(db: Db, first: AncestorRow, rest: seq<AncestorRow>, m: Message)
    ensures Admitted(db, [first] + rest, m) <==> Admits(db, first, m) || Admitted(db, rest, m)
  {
    var rows := [first] + rest;
    assert rows[0] == first && first in rows;
    if Admitted(db, rest, m) {
      var row :| row in rest && Admits(db, row, m);
      assert row in rows;
    }
  }

  /** The messages that the ancestry query selects. */
  function AncestryMessages(db: Db, t: nat): seq<Message> {
    var rows := AncestorRows(db, t, 0, None);
    Filter((m: Message) => !m.deleted && Admitted(db, rows, m), db.messages)
  }

  // ---- both readings, as predicates along the chain of parents -----------------------------------------

  /** m lies in t, or in what t's parent reads, up to t's own fork. */
  ghost predicate Reads(db: Db, t: nat, m: Message)
    requires Wf(db)
  {
    t < |db.threads| &&
    (m.thread == t
     || (db.threads[t].parent.Some? && Reads(db, db.threads[t].parent.value, m)
         && ForkOf(db, t).Some? && m.sequence <= ForkOf(db, t).value))
  }

  /** m lies in t up to `cut`, or in an ancestor up to the fork of that ancestor's own child. */
  ghost predicate Selects(db: Db, t: nat, cut: Option<nat>, m: Message)
    requires Wf(db)
  {
    t < |db.threads| &&
    ((m.thread == t && (cut.Some? ==> m.sequence <= cut.value))
     || (db.threads[t].parent.Some? && Selects(db, db.threads[t].parent.value, ForkOf(db, t), m)))
  }

  /** Every thread on the chain up from t has the fork point it names. */
  ghost predicate ForksExist(db: Db, t: nat)
    requires Wf(db)
  {
    t < |db.threads|
    && (db.threads[t].parent.Some? ==> ForkOf(db, t).Some? && ForksExist(db, db.threads[t].parent.value))
  }

  /** How many forks lie between t and its root. */
  ghost function ForkDepth(db: Db, t: nat): nat
    requires Wf(db)
  {
    if t < |db.threads| && db.threads[t].parent.Some? then 1 + ForkDepth(db, db.threads[t].parent.value) else 0
  }

  lemma {:induction false} RecursiveReading(db: Db, t: nat)
    requires Wf(db) && ForksExist(db, t)
    ensures ThreadMessages(db, t).Ok?
    ensures forall m :: m in ThreadMessages(db, t).value <==> m in db.messages && !m.deleted && Reads(db, t, m)
  {
    if db.threads[t].parent.Some? {
      RecursiveReading(db, db.threads[t].parent.value);
    }
  }

  /** What Selects admits within `reach` forks up. */
  ghost predicate SelectsWithin(db: Db, t: nat, cut: Option<nat>, reach: nat, m: Message)
    requires Wf(db)
    decreases reach
  {
    t < |db.threads| &&
    ((m.thread == t && (cut.Some? ==> m.sequence <= cut.value))
     || (reach > 0 && db.threads[t].parent.Some?
         && SelectsWithin(db, db.threads[t].parent.value, ForkOf(db, t), reach - 1, m)))
  }

  // ---- the order of the recursive reading ----------------------------------------------------------------

  ghost predicate AscendingSequence(s: seq<Message>) {
    forall i, j | 0 <= i < j < |s| :: s[i].sequence <= s[j].sequence
  }

  ghost predicate NoRepeats(s: seq<Message>) {
    forall i, j | 0 <= i < j < |s| :: s[i] != s[j]
  }

  lemma {:induction false} InsertAscends(s: seq<Message>, m: Message)
    requires AscendingSequence(s)
    ensures AscendingSequence(InsertBySequence(s, m))
  {
    if s != [] && m.sequence >= s[0].sequence {
      var rest := InsertBySequence(s[1..], m);
      InsertAscends(s[1..], m);
      forall k | 0 <= k < |rest| ensures s[0].sequence <= rest[k].sequence {
        assert rest[k] in rest;
        assert rest[k] in s[1..] ==> exists i :: 1 <= i < |s| && s[i] == rest[k];
      }
    }
  }

  lemma {:induction false} InsertNoRepeats(s: seq<Message>, m: Message)
    requires NoRepeats(s) && m !in s
    ensures NoRepeats(InsertBySequence(s, m))
  {
    if s != [] && m.sequence >= s[0].sequence {
      var rest := InsertBySequence(s[1..], m);
      InsertNoRepeats(s[1..], m);
      forall k | 0 <= k < |rest| ensures s[0] != rest[k] {
        assert rest[k] in rest;
        assert rest[k] in s[1..] ==> exists i :: 1 <= i < |s| && s[i] == rest[k];
      }
    }
  }

  lemma {:induction false} SortedAscends(s: seq<Message>)
    requires NoRepeats(s)
    ensures AscendingSequence(SortBySequence(s)) && NoRepeats(SortBySequence(s))
  {
    if s != [] {
      SortedAscends(s[1..]);
      InsertAscends(SortBySequence(s[1..]), s[0]);
      assert s[0] !in s[1..];
      InsertNoRepeats(SortBySequence(s[1..]), s[0]);
    }
  }

  lemma {:induction false} FilterNoRepeats(p: Message -> bool, s: seq<Message>)
    requires NoRepeats(s)
    ensures NoRepeats(Filter(p, s))
  {
    if s != [] {
      var rest := Filter(p, s[1..]);
      FilterNoRepeats(p, s[1..]);
      assert s[0] !in s[1..];
      forall k | 0 <= k < |rest| ensures rest[k] != s[0] {
        assert rest[k] in rest;
      }
    }
  }

  lemma OwnMessagesInOrder(db: Db, t: nat)
    requires Wf(db)
    ensures AscendingSequence(OwnMessages(db, t)) && NoRepeats(OwnMessages(db, t))
  {
    var p := (m: Message) => m.thread == t && !m.deleted;
    FilterNoRepeats(p, db.messages);
    SortedAscends(Filter(p, db.messages));
  }

  /** A message comes before another of the list if its thread lies above the other's, or in the same
      thread if its sequence number is not higher. */
  ghost predicate AncestorsFirst(s: seq<Message>) {
    forall i, j | 0 <= i < j < |s| ::
      s[i].thread < s[j].thread || (s[i].thread == s[j].thread && s[i].sequence <= s[j].sequence)
  }

  lemma {:induction false} FilterAncestorsFirst(p: Message -> bool, s: seq<Message>)
    requires AncestorsFirst(s)
    ensures AncestorsFirst(Filter(p, s))
  {
    if s != [] {
      var rest := Filter(p, s[1..]);
      FilterAncestorsFirst(p, s[1..]);
      forall k | 0 <= k < |rest|
        ensures s[0].thread < rest[k].thread || (s[0].thread == rest[k].thread && s[0].sequence <= rest[k].sequence)
      {
        assert rest[k] in rest;
        var i :| 1 <= i < |s| && s[i] == rest[k];
      }
    }
  }

  lemma {:induction false} ReadsIsBelow(db: Db, t: nat, m: Message)
    requires Wf(db) && Reads(db, t, m)
    ensures m.thread <= t
  {
    if m.thread != t { ReadsIsBelow(db, db.threads[t].parent.value, m); }
  }

  /** What a thread inherits, in the order of its parent's reading. */
  lemma InheritedInOrder(db: Db, parent: nat, cut: Option<nat>, above: seq<Message>)
    requires Wf(db) && ForksExist(db, parent) && ThreadMessages(db, parent) == Ok(above)
    requires AncestorsFirst(above) && NoRepeats(above)
    ensures var inherited := Inherited(above, cut);
            && AncestorsFirst(inherited) && NoRepeats(inherited)
            && forall k | 0 <= k < |inherited| :: inherited[k].thread <= parent
  {
    var p := (m: Message) => cut.Some? && m.sequence <= cut.value;
    var inherited := Filter(p, above);
    FilterNoRepeats(p, above);
    FilterAncestorsFirst(p, above);
    RecursiveReading(db, parent);
    forall k | 0 <= k < |inherited| ensures inherited[k].thread <= parent {
      assert inherited[k] in inherited;
      ReadsIsBelow(db, parent, inherited[k]);
    }
  }

  /** Inherited messages come first and the thread's own last: along the result the threads go down the chain,
      the messages of each are in ascending sequence, and none occurs twice. */
  lemma {:induction false} RecursiveOrder(db: Db, t: nat)
    requires Wf(db) && ForksExist(db, t)
    ensures ThreadMessages(db, t).Ok?
    ensures AncestorsFirst(ThreadMessages(db, t).value) && NoRepeats(ThreadMessages(db, t).value)
  {
    RecursiveReading(db, t);
    OwnMessagesInOrder(db, t);
    var own := OwnMessages(db, t);
    OwnAreOfThread(db, t);
    if db.threads[t].parent.Some? {
      var parent := db.threads[t].parent.value;
      RecursiveOrder(db, parent);
      ReadingJoins(db, t);
      InheritedInOrder(db, parent, ForkOf(db, t), ThreadMessages(db, parent).value);
      JoinInOrder(Inherited(ThreadMessages(db, parent).value, ForkOf(db, t)), own, t);
    }
  }

  ghost function Inherited(above: seq<Message>, cut: Option<nat>): seq<Message> {
    Filter((m: Message) => cut.Some? && m.sequence <= cut.value, above)
  }

  lemma ReadingJoins(db: Db, t: nat)
    requires Wf(db) && ForksExist(db, t) && db.threads[t].parent.Some?
    requires ThreadMessages(db, t).Ok? && ThreadMessages(db, db.threads[t].parent.value).Ok?
    ensures ThreadMessages(db, t).value
            == Inherited(ThreadMessages(db, db.threads[t].parent.value).value, ForkOf(db, t)) + OwnMessages(db, t)
  {
  }

  lemma OwnAreOfThread(db: Db, t: nat)
    ensures forall k | 0 <= k < |OwnMessages(db, t)| :: OwnMessages(db, t)[k].thread == t
  {
    forall k | 0 <= k < |OwnMessages(db, t)| ensures OwnMessages(db, t)[k].thread == t {
      assert OwnMessages(db, t)[k] in OwnMessages(db, t);
    }
  }

  lemma JoinInOrder(inherited: seq<Message>, own: seq<Message>, t: nat)
    requires AncestorsFirst(inherited) && NoRepeats(inherited)
    requires forall k | 0 <= k < |inherited| :: inherited[k].thread < t
    requires AscendingSequence(own) && NoRepeats(own) && forall k | 0 <= k < |own| :: own[k].thread == t
    ensures AncestorsFirst(inherited + own) && NoRepeats(inherited + own)
  {
  }

  /** Of two messages of one thread the one with the lower sequence number stands first, and a message of the
      k-th ancestor before every message of a thread further down the chain. */
  lemma RecursiveReadingInOrder(db: Db, t: nat, i: nat, j: nat)
    requires Wf(db) && ForksExist(db, t) && ThreadMessages(db, t).Ok?
    requires i < |ThreadMessages(db, t).value| && j < |ThreadMessages(db, t).value|
    ensures var r := ThreadMessages(db, t).value;
            && (r[i].thread == r[j].thread && r[i].sequence < r[j].sequence ==> i < j)
            && (forall k, l | 0 <= l < k < |ChainUp(db, t)|
                              && r[i].thread == ChainUp(db, t)[k] && r[j].thread == ChainUp(db, t)[l] :: i < j)
            && (i != j ==> r[i] != r[j])
  {
    RecursiveOrder(db, t);
    ChainGoesUp(db, t);
  }

  lemma {:induction false} ChainGoesUp(db: Db, t: nat)
    requires Wf(db) && t < |db.threads|
    ensures forall l, k | 0 <= l < k < |ChainUp(db, t)| :: ChainUp(db, t)[k] < ChainUp(db, t)[l]
  {
    if db.threads[t].parent.Some? {
      ChainGoesUp(db, db.threads[t].parent.value);
      ChainIsBelow(db, db.threads[t].parent.value);
    }
  }

  lemma {:induction false} RowsReading(db: Db, t: nat, depth: nat, childFork: Option<nat>, m: Message)
    requires Wf(db) && ForksExist(db, t) && depth <= MAX_DEPTH
    requires depth > 0 ==> SequenceOf(db.messages, childFork).Some?
    ensures Admitted(db, AncestorRows(db, t, depth, childFork), m)
            <==> SelectsWithin(db, t, if depth == 0 then None else SequenceOf(db.messages, childFork),
                               MAX_DEPTH - depth, m)
    decreases MAX_DEPTH - depth
  {
    var first, rest := AncestorRow(t, depth, childFork), [];
    if db.threads[t].parent.Some? && depth < MAX_DEPTH {
      rest := AncestorRows(db, db.threads[t].parent.value, depth + 1, db.threads[t].fork);
      RowsReading(db, db.threads[t].parent.value, depth + 1, db.threads[t].fork, m);
    }
    AdmittedByFirst(db, first, rest, m);
    assert AncestorRows(db, t, depth, childFork) == [first] + rest;
  }

  lemma QueryReadsOne(db: Db, t: nat, m: Message)
    requires Wf(db) && ForksExist(db, t)
    ensures m in AncestryMessages(db, t)
            <==> m in db.messages && !m.deleted && SelectsWithin(db, t, None, MAX_DEPTH, m)
  {
    RowsReading(db, t, 0, None, m);
  }

  /** The query selects what its rule admits of the thread and of its first 50 ancestors. */
  lemma QueryReading(db: Db, t: nat)
    requires Wf(db) && ForksExist(db, t)
    ensures forall m :: m in AncestryMessages(db, t)
                        <==> m in db.messages && !m.deleted && SelectsWithin(db, t, None, MAX_DEPTH, m)
  {
    forall m ensures m in AncestryMessages(db, t)
                     <==> m in db.messages && !m.deleted && SelectsWithin(db, t, None, MAX_DEPTH, m)
    {
      QueryReadsOne(db, t, m);
    }
  }

  lemma {:induction false} WithinDepth(db: Db, t: nat, cut: Option<nat>, reach: nat, m: Message)
    requires Wf(db) && t < |db.threads| && ForkDepth(db, t) <= reach
    ensures SelectsWithin(db, t, cut, reach, m) <==> Selects(db, t, cut, m)
  {
    if db.threads[t].parent.Some? {
      WithinDepth(db, db.threads[t].parent.value, ForkOf(db, t), reach - 1, m);
    }
  }

  /** In a thread with at most 50 forks above it the bound is not felt. */
  lemma ShallowQueryReading(db: Db, t: nat)
    requires Wf(db) && ForksExist(db, t) && ForkDepth(db, t) <= MAX_DEPTH
    ensures forall m :: m in AncestryMessages(db, t) <==> m in db.messages && !m.deleted && Selects(db, t, None, m)
  {
    QueryReading(db, t);
    forall m ensures SelectsWithin(db, t, None, MAX_DEPTH, m) <==> Selects(db, t, None, m) {
      WithinDepth(db, t, None, MAX_DEPTH, m);
    }
  }

  // ---- what the recursive reading keeps of each ancestor ---------------------------------------------------

  /** t and its ancestors, nearest first. */
  ghost function ChainUp(db: Db, t: nat): seq<nat>
    requires Wf(db) && t < |db.threads|
  {
    if db.threads[t].parent.Some? then [t] + ChainUp(db, db.threads[t].parent.value) else [t]
  }

  ghost predicate WithinForks(db: Db, chain: seq<nat>, k: nat, m: Message)
    requires k <= |chain| && forall j | 0 <= j < |chain| :: chain[j] < |db.threads|
  {
    forall j | 0 <= j < k :: ForkOf(db, chain[j]).Some? && m.sequence <= ForkOf(db, chain[j]).value
  }

  lemma {:induction false} ChainIsBelow(db: Db, t: nat)
    requires Wf(db) && t < |db.threads|
    ensures forall j | 0 <= j < |ChainUp(db, t)| :: ChainUp(db, t)[j] <= t
  {
    if db.threads[t].parent.Some? { ChainIsBelow(db, db.threads[t].parent.value); }
  }

  lemma FirstFork(db: Db, t: nat, above: seq<nat>, k: nat, m: Message)
    requires 0 < k <= |above| && t < |db.threads| && forall j | 0 <= j < |above| :: above[j] < |db.threads|
    ensures WithinForks(db, [t] + above, k, m) <==>
            ForkOf(db, t).Some? && m.sequence <= ForkOf(db, t).value && WithinForks(db, above, k - 1, m)
  {
    var chain := [t] + above;
    if WithinForks(db, chain, k, m) {
      assert chain[0] == t;
      forall j | 0 <= j < k - 1 ensures ForkOf(db, above[j]).Some? && m.sequence <= ForkOf(db, above[j]).value {
        assert chain[j + 1] == above[j];
      }
    }
    if ForkOf(db, t).Some? && m.sequence <= ForkOf(db, t).value && WithinForks(db, above, k - 1, m) {
      forall j | 0 <= j < k ensures ForkOf(db, chain[j]).Some? && m.sequence <= ForkOf(db, chain[j]).value {
        assert j > 0 ==> chain[j] == above[j - 1];
      }
    }
  }

  /** Of the k-th ancestor it keeps the messages up to the least of the k fork points below it. */
  lemma {:induction false} KeepsUpToEveryFork(db: Db, t: nat, k: nat, m: Message)
    requires Wf(db) && t < |db.threads| && k < |ChainUp(db, t)| && m.thread == ChainUp(db, t)[k]
    ensures forall j | 0 <= j < |ChainUp(db, t)| :: ChainUp(db, t)[j] < |db.threads|
    ensures Reads(db, t, m) <==> WithinForks(db, ChainUp(db, t), k, m)
  {
    ChainIsBelow(db, t);
    if k > 0 {
      var p := db.threads[t].parent.value;
      ChainIsBelow(db, p);
      assert ChainUp(db, t) == [t] + ChainUp(db, p);
      assert ChainUp(db, t)[k] == ChainUp(db, p)[k - 1] <= p;
      KeepsUpToEveryFork(db, p, k - 1, m);
      FirstFork(db, t, ChainUp(db, p), k, m);
    } else {
      assert ChainUp(db, t)[0] == t;
    }
  }

  // ---- how they compare ------------------------------------------------------------------------------------

  lemma {:induction false} ReadsImpliesSelects(db: Db, t: nat, cut: Option<nat>, m: Message)
    requires Wf(db) && Reads(db, t, m) && (cut.Some? ==> m.sequence <= cut.value)
    ensures Selects(db, t, cut, m)
  {
    if m.thread != t {
      ReadsImpliesSelects(db, db.threads[t].parent.value, ForkOf(db, t), m);
    }
  }

  /** Whatever the recursive reading returns, the query selects. */
  lemma RecursiveIsSubset(db: Db, t: nat, m: Message)
    requires Wf(db) && ForksExist(db, t) && ForkDepth(db, t) <= MAX_DEPTH
    requires ThreadMessages(db, t).Ok? ==> m in ThreadMessages(db, t).value
    ensures ThreadMessages(db, t).Ok? && m in AncestryMessages(db, t)
  {
    RecursiveReading(db, t);
    ShallowQueryReading(db, t);
    ReadsImpliesSelects(db, t, None, m);
  }

  /** Going up the chain, no fork comes later in its thread than the fork below it did in its own. */
  ghost predicate Steady(db: Db, t: nat)
    requires Wf(db) && ForksExist(db, t)
  {
    db.threads[t].parent.Some? ==>
      var p := db.threads[t].parent.value;
      assert ForksExist(db, p);
      (db.threads[p].parent.Some? ==> ForkOf(db, p).value <= ForkOf(db, t).value) && Steady(db, p)
  }

  lemma {:induction false} SteadyBoundsSelection(db: Db, t: nat, cut: Option<nat>, m: Message)
    requires Wf(db) && ForksExist(db, t) && Steady(db, t) && Selects(db, t, cut, m)
    ensures Reads(db, t, m)
    ensures m.thread == t || (db.threads[t].parent.Some? && m.sequence <= ForkOf(db, t).value)
  {
    if !(m.thread == t && (cut.Some? ==> m.sequence <= cut.value)) {
      SteadyBoundsSelection(db, db.threads[t].parent.value, ForkOf(db, t), m);
      SelectsIsBelow(db, db.threads[t].parent.value, ForkOf(db, t), m);
    }
  }

  lemma {:induction false} SelectsIsBelow(db: Db, t: nat, cut: Option<nat>, m: Message)
    requires Wf(db) && Selects(db, t, cut, m)
    ensures m.thread <= t && (m.thread == t && cut.Some? ==> m.sequence <= cut.value)
  {
    if !(m.thread == t && (cut.Some? ==> m.sequence <= cut.value)) {
      SelectsIsBelow(db, db.threads[t].parent.value, ForkOf(db, t), m);
    }
  }

  /** Where forks are steady the two readings return the same messages. */
  lemma SteadyReadsAlike(db: Db, t: nat)
    requires Wf(db) && ForksExist(db, t) && Steady(db, t) && ForkDepth(db, t) <= MAX_DEPTH
    ensures SameReadings(db, t)
  {
    RecursiveReading(db, t);
    ShallowQueryReading(db, t);
    forall m ensures m in ThreadMessages(db, t).value <==> m in AncestryMessages(db, t) {
      if Reads(db, t, m) { ReadsImpliesSelects(db, t, None, m); }
      if Selects(db, t, None, m) { SteadyBoundsSelection(db, t, None, m); }
    }
  }

  ghost predicate SameReadings(db: Db, t: nat)
    requires Wf(db)
  {
    && ThreadMessages(db, t).Ok?
    && forall m :: m in ThreadMessages(db, t).value <==> m in AncestryMessages(db, t)
  }

  /** A thread with at most one fork above it is always steady. */
  lemma ShallowThreadsAgree(db: Db, t: nat)
    requires Wf(db) && ForksExist(db, t) && ForkDepth(db, t) <= 1
    ensures SameReadings(db, t)
  {
    assert Steady(db, t);
    SteadyReadsAlike(db, t);
  }

  // ---- exactly when they differ ------------------------------------------------------------------------------

  /** A message of the k-th ancestor that its own child's fork lets through and a fork further down does not. */
  ghost predicate InGap(db: Db, chain: seq<nat>, k: nat, m: Message)
    requires forall j | 0 <= j < |chain| :: chain[j] < |db.threads|
  {
    && 2 <= k < |chain| && m.thread == chain[k]
    && ForkOf(db, chain[k - 1]).Some? && m.sequence <= ForkOf(db, chain[k - 1]).value
    && exists j | 0 <= j < k - 1 :: ForkOf(db, chain[j]).Some? && m.sequence > ForkOf(db, chain[j]).value
  }

  lemma {:induction false} ChainForksExist(db: Db, t: nat, k: nat)
    requires Wf(db) && ForksExist(db, t) && k < |ChainUp(db, t)| - 1
    ensures ChainUp(db, t)[k] < |db.threads| && ForkOf(db, ChainUp(db, t)[k]).Some?
  {
    if k > 0 { ChainForksExist(db, db.threads[t].parent.value, k - 1); }
  }

  /** Of the k-th ancestor the query keeps the messages up to the fork of that ancestor's own child. */
  lemma {:induction false} SelectsUpToOneFork(db: Db, t: nat, cut: Option<nat>, k: nat, m: Message)
    requires Wf(db) && ForksExist(db, t) && k < |ChainUp(db, t)| && m.thread == ChainUp(db, t)[k]
    ensures k > 0 ==> ChainUp(db, t)[k - 1] < |db.threads|
    ensures var bound := if k == 0 then cut else ForkOf(db, ChainUp(db, t)[k - 1]);
            Selects(db, t, cut, m) <==> (bound.Some? ==> m.sequence <= bound.value)
  {
    var chain := ChainUp(db, t);
    if k == 0 {
      if db.threads[t].parent.Some? && Selects(db, db.threads[t].parent.value, ForkOf(db, t), m) {
        SelectsIsBelow(db, db.threads[t].parent.value, ForkOf(db, t), m);
      }
    } else {
      var p := db.threads[t].parent.value;
      ChainIsBelow(db, p);
      assert chain[k] == ChainUp(db, p)[k - 1] && chain[k] <= p;
      SelectsUpToOneFork(db, p, ForkOf(db, t), k - 1, m);
      assert chain[0] == t && (k > 1 ==> chain[k - 1] == ChainUp(db, p)[k - 2]);
    }
  }

  lemma {:induction false} SelectedIsOnChain(db: Db, t: nat, cut: Option<nat>, m: Message) returns (k: nat)
    requires Wf(db) && ForksExist(db, t) && Selects(db, t, cut, m)
    ensures k < |ChainUp(db, t)| && m.thread == ChainUp(db, t)[k]
  {
    if m.thread == t {
      k := 0;
    } else {
      var above := SelectedIsOnChain(db, db.threads[t].parent.value, ForkOf(db, t), m);
      k := above + 1;
    }
  }

  /** What is selected of the k-th ancestor is selected within k forks, and not within fewer. */
  lemma {:induction false} ReachIsPlace(db: Db, t: nat, cut: Option<nat>, k: nat, reach: nat, m: Message)
    requires Wf(db) && t < |db.threads| && k < |ChainUp(db, t)| && m.thread == ChainUp(db, t)[k]
    ensures SelectsWithin(db, t, cut, reach, m) <==> Selects(db, t, cut, m) && k <= reach
    decreases t
  {
    var chain := ChainUp(db, t);
    ChainIsBelow(db, t);
    if db.threads[t].parent.Some? {
      var p := db.threads[t].parent.value;
      ChainIsBelow(db, p);
      if k > 0 {
        assert chain[k] == ChainUp(db, p)[k - 1];
        if reach > 0 { ReachIsPlace(db, p, ForkOf(db, t), k - 1, reach - 1, m); }
      } else {
        NothingOfMineAbove(db, p, ForkOf(db, t), m);
        if reach > 0 { NothingOfMineWithin(db, p, ForkOf(db, t), reach - 1, m); }
      }
    }
  }

  lemma NothingOfMineAbove(db: Db, p: nat, cut: Option<nat>, m: Message)
    requires Wf(db) && p < m.thread
    ensures !Selects(db, p, cut, m)
  {
    if Selects(db, p, cut, m) { SelectsIsBelow(db, p, cut, m); }
  }

  lemma {:induction false} NothingOfMineWithin(db: Db, p: nat, cut: Option<nat>, reach: nat, m: Message)
    requires Wf(db) && p < m.thread
    ensures !SelectsWithin(db, p, cut, reach, m)
    decreases reach
  {
    if reach > 0 && p < |db.threads| && db.threads[p].parent.Some? {
      NothingOfMineWithin(db, db.threads[p].parent.value, ForkOf(db, p), reach - 1, m);
    }
  }

  /** The query selects more than the recursion reads just in the gap between two forks. */
  lemma GapIsLost(db: Db, t: nat, k: nat, m: Message)
    requires Wf(db) && ForksExist(db, t) && k < |ChainUp(db, t)| && m.thread == ChainUp(db, t)[k]
    ensures forall j | 0 <= j < |ChainUp(db, t)| :: ChainUp(db, t)[j] < |db.threads|
    ensures Selects(db, t, None, m) && !Reads(db, t, m) <==> InGap(db, ChainUp(db, t), k, m)
  {
    var chain := ChainUp(db, t);
    ChainIsBelow(db, t);
    KeepsUpToEveryFork(db, t, k, m);
    SelectsUpToOneFork(db, t, None, k, m);
    forall j | 0 <= j < k ensures ForkOf(db, chain[j]).Some? {
      ChainForksExist(db, t, j);
    }
  }

  /** Some message that has not been deleted lies in a gap of the part of the chain that the query reaches. */
  ghost predicate HasGap(db: Db, t: nat)
    requires Wf(db) && t < |db.threads|
  {
    ChainIsBelow(db, t);
    exists m, k: nat :: m in db.messages && !m.deleted && k <= MAX_DEPTH && InGap(db, ChainUp(db, t), k, m)
  }

  /** A message further up than that, before every fork on the way down. */
  ghost predicate FromBeyond(db: Db, chain: seq<nat>, k: nat, m: Message)
    requires forall j | 0 <= j < |chain| :: chain[j] < |db.threads|
  {
    MAX_DEPTH < k < |chain| && m.thread == chain[k] && WithinForks(db, chain, k, m)
  }

  ghost predicate InheritsFromBeyond(db: Db, t: nat)
    requires Wf(db) && t < |db.threads|
  {
    ChainIsBelow(db, t);
    exists m, k: nat :: m in db.messages && !m.deleted && FromBeyond(db, ChainUp(db, t), k, m)
  }

  lemma {:induction false} ReadIsOnChain(db: Db, t: nat, m: Message) returns (k: nat)
    requires Wf(db) && ForksExist(db, t) && Reads(db, t, m)
    ensures k < |ChainUp(db, t)| && m.thread == ChainUp(db, t)[k]
  {
    ReadsImpliesSelects(db, t, None, m);
    k := SelectedIsOnChain(db, t, None, m);
  }

  lemma {:induction false} WithinIsSelected(db: Db, t: nat, cut: Option<nat>, reach: nat, m: Message)
    requires Wf(db) && SelectsWithin(db, t, cut, reach, m)
    ensures Selects(db, t, cut, m)
    decreases reach
  {
    if !(m.thread == t && (cut.Some? ==> m.sequence <= cut.value)) {
      WithinIsSelected(db, db.threads[t].parent.value, ForkOf(db, t), reach - 1, m);
    }
  }

  /** One message tells the readings apart just if it lies in a gap or beyond the reach of the query. */
  lemma ToldApart(db: Db, t: nat, k: nat, m: Message)
    requires Wf(db) && ForksExist(db, t) && k < |ChainUp(db, t)| && m.thread == ChainUp(db, t)[k]
    ensures forall j | 0 <= j < |ChainUp(db, t)| :: ChainUp(db, t)[j] < |db.threads|
    ensures SelectsWithin(db, t, None, MAX_DEPTH, m) && !Reads(db, t, m)
            <==> k <= MAX_DEPTH && InGap(db, ChainUp(db, t), k, m)
    ensures Reads(db, t, m) && !SelectsWithin(db, t, None, MAX_DEPTH, m) <==> FromBeyond(db, ChainUp(db, t), k, m)
  {
    GapIsLost(db, t, k, m);
    ReachIsPlace(db, t, None, k, MAX_DEPTH, m);
    KeepsUpToEveryFork(db, t, k, m);
    if Reads(db, t, m) { ReadsImpliesSelects(db, t, None, m); }
  }

  /**
   The two readings return the same messages exactly when no message stands in a gap (at or before the fork of its
   thread's own child, and after some fork further down) and none is inherited from beyond the 50th ancestor.
   */
  lemma SameReadingsExactly(db: Db, t: nat)
    requires Wf(db) && ForksExist(db, t)
    ensures SameReadings(db, t) <==> !HasGap(db, t) && !InheritsFromBeyond(db, t)
  {
    RecursiveReading(db, t);
    QueryReading(db, t);
    ChainIsBelow(db, t);
    var chain := ChainUp(db, t);
    if HasGap(db, t) {
      var m, k: nat :| m in db.messages && !m.deleted && k <= MAX_DEPTH && InGap(db, chain, k, m);
      ToldApart(db, t, k, m);
      assert m in AncestryMessages(db, t) && m !in ThreadMessages(db, t).value;
    } else if InheritsFromBeyond(db, t) {
      var m, k: nat :| m in db.messages && !m.deleted && FromBeyond(db, chain, k, m);
      ToldApart(db, t, k, m);
      assert m !in AncestryMessages(db, t) && m in ThreadMessages(db, t).value;
    } else {
      NothingTellsApart(db, t);
    }
  }

  lemma NothingTellsApart(db: Db, t: nat)
    requires Wf(db) && ForksExist(db, t) && !HasGap(db, t) && !InheritsFromBeyond(db, t)
    ensures SameReadings(db, t)
  {
    RecursiveReading(db, t);
    QueryReading(db, t);
    forall m ensures m in ThreadMessages(db, t).value <==> m in AncestryMessages(db, t) {
      if m in db.messages && !m.deleted {
        if Reads(db, t, m) {
          var k := ReadIsOnChain(db, t, m);
          ToldApart(db, t, k, m);
        }
        if SelectsWithin(db, t, None, MAX_DEPTH, m) {
          WithinIsSelected(db, t, None, MAX_DEPTH, m);
          var k := SelectedIsOnChain(db, t, None, m);
          ToldApart(db, t, k, m);
        }
      }
    }
  }

  // ---- while no fork message has been deleted ----------------------------------------------------------------

  /** Each fork point on the chain is an undeleted message that the parent itself reads. */
  ghost predicate ForksVisible(db: Db, t: nat)
    requires Wf(db)
  {
    t < |db.threads|
    && (db.threads[t].parent.Some? ==>
          (exists f :: f in db.messages && Some(f.id) == db.threads[t].fork && !f.deleted
                       && ForkOf(db, t) == Some(f.sequence) && Reads(db, db.threads[t].parent.value, f))
          && ForksVisible(db, db.threads[t].parent.value))
  }

  lemma {:induction false} VisibleForksExist(db: Db, t: nat)
    requires Wf(db) && ForksVisible(db, t)
    ensures ForksExist(db, t)
  {
    if db.threads[t].parent.Some? { VisibleForksExist(db, db.threads[t].parent.value); }
  }

  /** If some fork comes later than the one below it, and no fork message has been deleted, the query
      selects its fork point and the recursive reading leaves it out. */
  lemma {:induction false} UnsteadyLoses(db: Db, t: nat) returns (m: Message)
    requires Wf(db) && ForksVisible(db, t) && ForksExist(db, t) && !Steady(db, t)
    ensures m in db.messages && !m.deleted && Selects(db, t, None, m) && !Reads(db, t, m)
  {
    var p := db.threads[t].parent.value;
    if db.threads[p].parent.Some? && ForkOf(db, p).value > ForkOf(db, t).value {
      var g := db.threads[p].parent.value;
      m :| m in db.messages && !m.deleted && ForkOf(db, p) == Some(m.sequence) && Reads(db, g, m);
      ReadsImpliesSelects(db, g, ForkOf(db, p), m);
      SelectsIsBelow(db, g, ForkOf(db, p), m);
    } else {
      m := UnsteadyLoses(db, p);
      SelectsIsBelow(db, p, None, m);
    }
  }

  /** Then a room tells by its fork points alone: the readings are the same exactly when the forks are steady. */
  lemma SteadyExactly(db: Db, t: nat)
    requires Wf(db) && ForksVisible(db, t) && ForksExist(db, t) && ForkDepth(db, t) <= MAX_DEPTH
    ensures SameReadings(db, t) <==> Steady(db, t)
  {
    if Steady(db, t) {
      SteadyReadsAlike(db, t);
    } else {
      var m := UnsteadyLoses(db, t);
      RecursiveReading(db, t);
      ShallowQueryReading(db, t);
      assert m in AncestryMessages(db, t) && m !in ThreadMessages(db, t).value;
    }
  }

  // ---- forking extends the tree --------------------------------------------------------------------------------

  function Forked(db: Db, source: nat, fork: nat): Db {
    db.(threads := db.threads + [Thread(Some(source), Some(fork))])
  }

  lemma {:induction false} ForkingKeepsReads(db: Db, source: nat, fork: nat, t: nat, m: Message)
    requires Wf(db) && source < |db.threads| && t < |db.threads|
    ensures Wf(Forked(db, source, fork)) && (Reads(db, t, m) <==> Reads(Forked(db, source, fork), t, m))
  {
    if db.threads[t].parent.Some? {
      ForkingKeepsReads(db, source, fork, db.threads[t].parent.value, m);
    }
  }

  lemma {:induction false} ForkingKeepsVisible(db: Db, source: nat, fork: nat, t: nat)
    requires Wf(db) && source < |db.threads| && ForksVisible(db, t)
    ensures Wf(Forked(db, source, fork)) && ForksVisible(Forked(db, source, fork), t)
  {
    var db' := Forked(db, source, fork);
    if db.threads[t].parent.Some? {
      var p := db.threads[t].parent.value;
      ForkingKeepsVisible(db, source, fork, p);
      var f :| f in db.messages && Some(f.id) == db.threads[t].fork && !f.deleted
               && ForkOf(db, t) == Some(f.sequence) && Reads(db, p, f);
      ForkingKeepsReads(db, source, fork, p, f);
      assert ForkOf(db', t) == ForkOf(db, t);
    }
  }

  lemma {:induction false} SequenceIsFound(messages: seq<Message>, f: Message)
    requires f in messages && forall i, j | 0 <= i < j < |messages| :: messages[i].id != messages[j].id
    ensures SequenceOf(messages, Some(f.id)) == Some(f.sequence)
  {
    if messages[0] != f {
      assert f in messages[1..];
      SequenceIsFound(messages[1..], f);
    }
  }

  /** Forking at a message that the source reads keeps every fork point visible, the new one included. */
  lemma {:induction false} ForkIsVisible(db: Db, source: nat, f: Message)
    requires Wf(db) && ForksVisible(db, source) && f in db.messages && !f.deleted && Reads(db, source, f)
    ensures Wf(Forked(db, source, f.id)) && ForksVisible(Forked(db, source, f.id), |db.threads|)
  {
    var db' := Forked(db, source, f.id);
    ForkingKeepsVisible(db, source, f.id, source);
    ForkingKeepsReads(db, source, f.id, source, f);
    SequenceIsFound(db.messages, f);
    assert ForkOf(db', |db.threads|) == Some(f.sequence);
  }

  // ---- rooms as they come about --------------------------------------------------------------------------------

  /** What changes threads and messages. A deletion marks the message and leaves the row, whose sequence stays taken. */
  datatype Step =
    | NewThread
    | Say(id: nat, thread: nat, created: int)
    | Fork(source: nat, message: nat)
    | Delete(id: nat)

  function Deleted(messages: seq<Message>, id: nat): (r: seq<Message>)
    ensures |r| == |messages|
    ensures forall k | 0 <= k < |r| ::
              r[k] == if messages[k].id == id then messages[k].(deleted := true) else messages[k]
  {
    seq(|messages|, k requires 0 <= k < |messages| =>
      if messages[k].id == id then messages[k].(deleted := true) else messages[k])
  }

  /** One more than the highest sequence number of the thread. */
  function NextSequence(messages: seq<Message>, t: nat): (next: nat)
    ensures forall m | m in messages && m.thread == t :: m.sequence < next
    ensures next == 1 || exists m :: m in messages && m.thread == t && m.sequence + 1 == next
  {
    if messages == [] then 1
    else
      assert messages == [messages[0]] + messages[1..];
      var next := NextSequence(messages[1..], t);
      if messages[0].thread == t && messages[0].sequence >= next then messages[0].sequence + 1 else next
  }

  /** A fork is refused unless the source thread shows the message. */
  predicate CanFork(db: Db, source: nat, message: nat)
    requires Wf(db)
  {
    var shown := ThreadMessages(db, source);
    shown.Ok? && exists m <- shown.value :: m.id == message
  }

  function Apply(db: Db, step: Step): (r: Db)
    requires Wf(db)
  {
    match step
    case NewThread => db.(threads := db.threads + [Thread(None, None)])
    case Say(id, t, created) =>
      if t >= |db.threads| || exists m <- db.messages :: m.id == id then db
      else db.(messages := db.messages + [Message(id, t, NextSequence(db.messages, t), created, false)])
    case Fork(source, message) => if CanFork(db, source, message) then Forked(db, source, message) else db
    case Delete(id) => db.(messages := Deleted(db.messages, id))
  }

  ghost predicate AllForksExist(db: Db) {
    Wf(db) && forall t {:trigger ForksExist(db, t)} | 0 <= t < |db.threads| :: ForksExist(db, t)
  }

  /** The points at which threads forked do not move. */
  ghost predicate KeepsForks(db: Db, db': Db) {
    && Wf(db') && |db.threads| <= |db'.threads|
    && forall t {:trigger db'.threads[t]} | 0 <= t < |db.threads| ::
         db'.threads[t] == db.threads[t] && (ForkOf(db, t).Some? ==> ForkOf(db', t) == ForkOf(db, t))
  }

  lemma {:induction false} KeptForksExist(db: Db, db': Db, t: nat)
    requires Wf(db) && KeepsForks(db, db') && ForksExist(db, t)
    ensures ForksExist(db', t)
  {
    assert db'.threads[t] == db.threads[t];
    if db.threads[t].parent.Some? { KeptForksExist(db, db', db.threads[t].parent.value); }
  }

  lemma {:induction false} SequenceOfAppend(messages: seq<Message>, m: Message, id: Option<nat>)
    requires SequenceOf(messages, id).Some?
    ensures SequenceOf(messages + [m], id) == SequenceOf(messages, id)
  {
    assert (messages + [m])[1..] == messages[1..] + [m];
    if id != Some(messages[0].id) { SequenceOfAppend(messages[1..], m, id); }
  }

  lemma {:induction false} SequenceOfDeleted(messages: seq<Message>, gone: nat, id: Option<nat>)
    ensures SequenceOf(Deleted(messages, gone), id) == SequenceOf(messages, id)
  {
    if messages != [] {
      assert Deleted(messages, gone)[1..] == Deleted(messages[1..], gone);
      SequenceOfDeleted(messages[1..], gone, id);
    }
  }

  lemma SayingKeepsForks(db: Db, m: Message)
    requires Wf(db) && forall x | x in db.messages :: x.id != m.id
    ensures KeepsForks(db, Db(db.threads, db.messages + [m]))
  {
    var db' := Db(db.threads, db.messages + [m]);
    forall i | 0 <= i < |db.messages| ensures db.messages[i].id != m.id {
      assert db.messages[i] in db.messages;
    }
    forall k | 0 <= k < |db.threads| && ForkOf(db, k).Some? ensures ForkOf(db', k) == ForkOf(db, k) {
      SequenceOfAppend(db.messages, m, db.threads[k].fork);
    }
  }

  lemma DeletingKeepsForks(db: Db, id: nat)
    requires Wf(db)
    ensures KeepsForks(db, db.(messages := Deleted(db.messages, id)))
  {
    var db' := db.(messages := Deleted(db.messages, id));
    forall k | 0 <= k < |db.threads| ensures ForkOf(db', k) == ForkOf(db, k) {
      SequenceOfDeleted(db.messages, id, db.threads[k].fork);
    }
  }

  lemma StepKeepsForks(db: Db, step: Step)
    requires Wf(db)
    ensures KeepsForks(db, Apply(db, step))
  {
    match step
    case Say(id, t, created) =>
      if Apply(db, step) != db {
        SayingKeepsForks(db, Message(id, t, NextSequence(db.messages, t), created, false));
      }
    case Delete(id) => DeletingKeepsForks(db, id);
    case _ =>
  }

  lemma StepKeepsAllForks(db: Db, step: Step)
    requires AllForksExist(db)
    ensures AllForksExist(Apply(db, step))
  {
    var db' := Apply(db, step);
    StepKeepsForks(db, step);
    forall t | 0 <= t < |db'.threads| ensures ForksExist(db', t) {
      if t < |db.threads| {
        KeptForksExist(db, db', t);
      } else if step.Fork? {
        RecursiveReading(db, step.source);
        var m :| m in ThreadMessages(db, step.source).value && m.id == step.message;
        SequenceIsFound(db.messages, m);
        KeptForksExist(db, db', step.source);
      }
    }
  }

  function Run(steps: seq<Step>): (db: Db)
    ensures Wf(db)
  {
    if steps == [] then Db([], [])
    else
      var before := Run(steps[..|steps| - 1]);
      StepKeepsForks(before, steps[|steps| - 1]);
      Apply(before, steps[|steps| - 1])
  }

  /** Whatever is said, forked and deleted, every fork keeps the point at which it was made. */
  lemma {:induction false} RunKeepsForks(steps: seq<Step>)
    ensures AllForksExist(Run(steps))
  {
    if steps != [] {
      RunKeepsForks(steps[..|steps| - 1]);
      StepKeepsAllForks(Run(steps[..|steps| - 1]), steps[|steps| - 1]);
    }
  }

  /** In every room that can come about, deletions included, the two readings differ just by the gaps and the bound. */
  lemma {:induction false} ReachableReadingsExactly(steps: seq<Step>, t: nat)
    requires t < |Run(steps).threads|
    ensures SameReadings(Run(steps), t) <==> !HasGap(Run(steps), t) && !InheritsFromBeyond(Run(steps), t)
  {
    RunKeepsForks(steps);
    assert ForksExist(Run(steps), t);
    SameReadingsExactly(Run(steps), t);
  }

  // ---- rooms in which the readings differ ----------------------------------------------------------------------

  lemma RunOneMore(steps: seq<Step>, step: Step)
    ensures Run(steps + [step]) == Apply(Run(steps), step)
  {
    assert (steps + [step])[..|steps|] == steps;
  }

  /** Forking at a message that the source reads. */
  lemma ForkRuns(steps: seq<Step>, source: nat, m: Message)
    requires var db := Run(steps);
             source < |db.threads| && m in db.messages && !m.deleted && Reads(db, source, m)
    ensures Run(steps + [Fork(source, m.id)]) == Forked(Run(steps), source, m.id)
  {
    RunKeepsForks(steps);
    assert ForksExist(Run(steps), source);
    RecursiveReading(Run(steps), source);
    RunOneMore(steps, Fork(source, m.id));
  }

  lemma Says(steps: seq<Step>, id: nat, t: nat, created: int) returns (m: Message)
    requires t < |Run(steps).threads| && forall x | x in Run(steps).messages :: x.id != id
    ensures m == Message(id, t, NextSequence(Run(steps).messages, t), created, false)
    ensures Run(steps + [Say(id, t, created)]) == Db(Run(steps).threads, Run(steps).messages + [m])
  {
    RunOneMore(steps, Say(id, t, created));
    m := Message(id, t, NextSequence(Run(steps).messages, t), created, false);
  }

  const FIRST := Message(0, 0, 1, 1, false)

  const SECOND := Message(1, 0, 2, 2, false)

  const REPLY := Message(2, 1, 1, 3, false)

  lemma Sequences()
    ensures NextSequence([], 0) == 1 && NextSequence([FIRST], 0) == 2 && NextSequence([FIRST, SECOND], 1) == 1
  {
    assert [FIRST][1..] == [] && [FIRST, SECOND][1..] == [SECOND] && [SECOND][1..] == [];
    assert NextSequence([], 1) == 1 && NextSequence([SECOND], 1) == 1;
  }

  lemma OneMessageRun() returns (steps: seq<Step>)
    ensures Run(steps) == Db([Thread(None, None)], [FIRST])
  {
    Sequences();
    RunOneMore([], NewThread);
    steps := [] + [NewThread];
    assert Run(steps) == Db([Thread(None, None)], []);
    var m := Says(steps, 0, 0, 1);
    steps := steps + [Say(0, 0, 1)];
    assert [] + [m] == [FIRST];
  }

  lemma TwoMessagesRun() returns (steps: seq<Step>)
    ensures Run(steps) == Db([Thread(None, None)], [FIRST, SECOND])
  {
    Sequences();
    steps := OneMessageRun();
    var m := Says(steps, 1, 0, 2);
    steps := steps + [Say(1, 0, 2)];
    assert [FIRST] + [m] == [FIRST, SECOND];
  }

  function TwoForks(second: Message): Db {
    Db([Thread(None, None), Thread(Some(0), Some(1)), Thread(Some(1), Some(2))], [FIRST, second, REPLY])
  }

  /** Thread 1 forks at the second message of thread 0, and thread 2 at the first message of thread 1. */
  lemma TwoForksRun() returns (steps: seq<Step>)
    ensures Run(steps) == TwoForks(SECOND)
  {
    Sequences();
    steps := TwoMessagesRun();
    assert Run(steps).messages[1] == SECOND;
    ForkRuns(steps, 0, SECOND);
    steps := steps + [Fork(0, 1)];
    var c := Says(steps, 2, 1, 3);
    steps := steps + [Say(2, 1, 3)];
    assert Run(steps).messages[2] == REPLY;
    ForkRuns(steps, 1, REPLY);
    steps := steps + [Fork(1, 2)];
    assert Run(steps).threads == TwoForks(SECOND).threads;
  }

  lemma TwoForksSequences(second: Message)
    requires second.id == 1 && second.sequence == 2
    ensures var db := TwoForks(second);
            Wf(db) && ForkOf(db, 1) == Some(2) && ForkOf(db, 2) == Some(1)
  {
    var db := TwoForks(second);
    assert db.messages[1] == second && db.messages[2] == REPLY;
    SequenceIsFound(db.messages, second);
    SequenceIsFound(db.messages, REPLY);
  }

  lemma TwoForksChain(second: Message)
    requires second.id == 1 && second.sequence == 2
    ensures var db := TwoForks(second);
            Wf(db) && ForksExist(db, 2) && ForkDepth(db, 2) == 2 && ChainUp(db, 2) == [2, 1, 0] && !Steady(db, 2)
  {
    var db := TwoForks(second);
    TwoForksSequences(second);
    assert ForksExist(db, 0) && ChainUp(db, 0) == [0] && ForkDepth(db, 0) == 0;
    assert ForksExist(db, 1) && ChainUp(db, 1) == [1, 0] && ForkDepth(db, 1) == 1;
  }

  /** Just the second message tells the readings of the last thread apart, if it is there. */
  lemma TwoForksGap(second: Message)
    requires second.id == 1 && second.sequence == 2 && second.thread == 0
    ensures Wf(TwoForks(second)) && ForksExist(TwoForks(second), 2)
    ensures SameReadings(TwoForks(second), 2) <==> second.deleted
  {
    var db := TwoForks(second);
    TwoForksSequences(second);
    TwoForksChain(second);
    ChainIsBelow(db, 2);
    SameReadingsExactly(db, 2);
    var chain := [2, 1, 0];
    assert ForkOf(db, chain[0]) == Some(1) && ForkOf(db, chain[1]) == Some(2);
    assert db.messages[1] == second && InGap(db, chain, 2, second);
    forall m, k: nat | m in db.messages && InGap(db, chain, k, m) ensures m == second {}
  }

  /** A thread that is two forks from its root loses a message that it should inherit. */
  lemma TwoForksCanDisagree() returns (steps: seq<Step>)
    ensures Run(steps) == TwoForks(SECOND) && !SameReadings(Run(steps), 2)
  {
    steps := TwoForksRun();
    TwoForksChain(SECOND);
    TwoForksGap(SECOND);
  }

  /** The same room once that message has been deleted: the forks are as unsteady as before, and nothing is lost. */
  lemma DeletedForkLosesNothing() returns (steps: seq<Step>)
    ensures var db := Run(steps);
            && db == TwoForks(SECOND.(deleted := true))
            && ForksExist(db, 2) && !Steady(db, 2) && SameReadings(db, 2)
  {
    steps := TwoForksRun();
    RunOneMore(steps, Delete(1));
    steps := steps + [Delete(1)];
    var gone := SECOND.(deleted := true);
    assert Run(steps).messages == TwoForks(gone).messages;
    TwoForksChain(gone);
    TwoForksGap(gone);
  }

  /** Thread n is the n-th fork in a row, all of them at the only message there is. */
  ghost predicate ForksInARow(db: Db, n: nat) {
    && db.messages == [FIRST]
    && |db.threads| == n + 1 && db.threads[0] == Thread(None, None)
    && forall t | 1 <= t <= n :: db.threads[t] == Thread(Some(t - 1), Some(0))
  }

  lemma {:induction false} RowReads(db: Db, n: nat, t: nat)
    requires ForksInARow(db, n) && t <= n
    ensures Wf(db) && ForksExist(db, t) && Reads(db, t, db.messages[0]) && ForkDepth(db, t) == t
    ensures |ChainUp(db, t)| == t + 1 && ChainUp(db, t)[t] == 0
  {
    SequenceIsFound(db.messages, db.messages[0]);
    if t > 0 { RowReads(db, n, t - 1); }
  }

  lemma RowGrows(db: Db, n: nat)
    requires ForksInARow(db, n)
    ensures ForksInARow(Forked(db, n, 0), n + 1)
  {
  }

  lemma {:induction false} RowRuns(n: nat) returns (steps: seq<Step>)
    ensures ForksInARow(Run(steps), n)
  {
    if n == 0 {
      steps := OneMessageRun();
    } else {
      steps := RowRuns(n - 1);
      RowReads(Run(steps), n - 1, n - 1);
      assert FIRST in [FIRST];
      ForkRuns(steps, n - 1, FIRST);
      RowGrows(Run(steps), n - 1);
      steps := steps + [Fork(n - 1, 0)];
    }
  }

  /** Every thread that lies more than 50 forks below the root of such a row has lost its first message on the page. */
  lemma DeepThreadsDisagree(n: nat) returns (steps: seq<Step>)
    requires n > MAX_DEPTH
    ensures n < |Run(steps).threads| && ForkDepth(Run(steps), n) == n && !SameReadings(Run(steps), n)
  {
    steps := RowRuns(n);
    var db := Run(steps);
    RowReads(db, n, n);
    ChainIsBelow(db, n);
    KeepsUpToEveryFork(db, n, n, db.messages[0]);
    assert FromBeyond(db, ChainUp(db, n), n, db.messages[0]);
    SameReadingsExactly(db, n);
  }

  // ---- both readings in fields ---------------------------------------------------------------------------------

  /** The chain starts at the thread, goes from parent to parent and ends at a thread without one. */
  lemma {:induction false} ChainInFields(db: Db, t: nat)
    requires Wf(db) && t < |db.threads|
    ensures var chain := ChainUp(db, t);
            && |chain| >= 1 && chain[0] == t && (forall k | 0 <= k < |chain| :: chain[k] < |db.threads|)
            && (forall k | 0 <= k < |chain| - 1 :: db.threads[chain[k]].parent == Some(chain[k + 1]))
            && db.threads[chain[|chain| - 1]].parent == None
  {
    if db.threads[t].parent.Some? {
      var above := ChainUp(db, db.threads[t].parent.value);
      ChainInFields(db, db.threads[t].parent.value);
      forall k | 0 <= k < |above| ensures ChainUp(db, t)[k + 1] == above[k] {}
    }
  }

  /** The message with the given identifier has this sequence number. */
  ghost predicate ForkAt(db: Db, t: nat, sequence: nat) {
    t < |db.threads| && exists f :: f in db.messages && db.threads[t].fork == Some(f.id) && f.sequence == sequence
  }

  lemma ForkInFields(db: Db, t: nat)
    requires Wf(db) && t < |db.threads|
    ensures forall sequence: nat :: ForkOf(db, t) == Some(sequence) <==> ForkAt(db, t, sequence)
  {
    forall f | f in db.messages && db.threads[t].fork == Some(f.id) ensures ForkOf(db, t) == Some(f.sequence) {
      SequenceIsFound(db.messages, f);
    }
  }

  /** Thread t forked at a message that comes no earlier than m. */
  ghost predicate UpToFork(db: Db, t: nat, m: Message) {
    exists sequence: nat :: ForkAt(db, t, sequence) && m.sequence <= sequence
  }

  /** m belongs to the k-th thread up the chain, and no later than each of the k forks on the way down. */
  ghost predicate BeforeEveryFork(db: Db, chain: seq<nat>, k: nat, m: Message) {
    k < |chain| && m.thread == chain[k] && forall j | 0 <= j < k :: UpToFork(db, chain[j], m)
  }

  /** m belongs to the k-th thread up the chain, and no later than the fork of the thread just below. */
  ghost predicate BeforeOneFork(db: Db, chain: seq<nat>, k: nat, m: Message) {
    k < |chain| && m.thread == chain[k] && (k > 0 ==> UpToFork(db, chain[k - 1], m))
  }

  /** The recursive reading: undeleted messages of the chain, of each ancestor those before every fork below it. */
  lemma RecursiveReadingInFields(db: Db, t: nat, m: Message)
    requires Wf(db) && ForksExist(db, t)
    ensures ThreadMessages(db, t).Ok?
    ensures m in ThreadMessages(db, t).value <==>
            m in db.messages && !m.deleted && exists k: nat :: BeforeEveryFork(db, ChainUp(db, t), k, m)
  {
    RecursiveReading(db, t);
    ChainIsBelow(db, t);
    var chain := ChainUp(db, t);
    if Reads(db, t, m) {
      var k := ReadIsOnChain(db, t, m);
      KeepsUpToEveryFork(db, t, k, m);
      EveryForkInFields(db, chain, k, m);
    }
    if k: nat :| BeforeEveryFork(db, chain, k, m) {
      KeepsUpToEveryFork(db, t, k, m);
      EveryForkInFields(db, chain, k, m);
    }
  }

  lemma EveryForkInFields(db: Db, chain: seq<nat>, k: nat, m: Message)
    requires Wf(db) && k < |chain| && m.thread == chain[k] && forall j | 0 <= j < |chain| :: chain[j] < |db.threads|
    ensures WithinForks(db, chain, k, m) <==> BeforeEveryFork(db, chain, k, m)
  {
    forall j | 0 <= j < k
      ensures ForkOf(db, chain[j]).Some? && m.sequence <= ForkOf(db, chain[j]).value <==> UpToFork(db, chain[j], m)
    {
      ForkInFields(db, chain[j]);
    }
  }

  /** The query: undeleted messages of the thread and its first 50 ancestors, of each those before the fork of the
      thread just below it. */
  lemma QueryReadingInFields(db: Db, t: nat, m: Message)
    requires Wf(db) && ForksExist(db, t)
    ensures m in AncestryMessages(db, t) <==>
            m in db.messages && !m.deleted && exists k: nat :: k <= 50 && BeforeOneFork(db, ChainUp(db, t), k, m)
  {
    QueryReadsOne(db, t, m);
    ChainIsBelow(db, t);
    var chain := ChainUp(db, t);
    if SelectsWithin(db, t, None, MAX_DEPTH, m) {
      WithinIsSelected(db, t, None, MAX_DEPTH, m);
      var k := SelectedIsOnChain(db, t, None, m);
      PlaceInFields(db, t, k, m);
    }
    if k: nat :| k <= 50 && BeforeOneFork(db, chain, k, m) {
      PlaceInFields(db, t, k, m);
    }
  }

  lemma PlaceInFields(db: Db, t: nat, k: nat, m: Message)
    requires Wf(db) && ForksExist(db, t) && k < |ChainUp(db, t)| && m.thread == ChainUp(db, t)[k]
    ensures SelectsWithin(db, t, None, MAX_DEPTH, m) <==> k <= 50 && BeforeOneFork(db, ChainUp(db, t), k, m)
  {
    ChainIsBelow(db, t);
    ReachIsPlace(db, t, None, k, MAX_DEPTH, m);
    SelectsUpToOneFork(db, t, None, k, m);
    if k > 0 {
      ForkInFields(db, ChainUp(db, t)[k - 1]);
      ChainForksExist(db, t, k - 1);
    }
  }
}
