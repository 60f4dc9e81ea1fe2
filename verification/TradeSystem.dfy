/** Accepting a proposed trade as a transition system, and what each of its moves keeps. */
module TradeSystem {
  // An accept claims its operation, writes the prediction, writes the fill and finishes. Any number of accepts
  // interleave, crash, outlive their leases or lose their answers; posts may reach the desk late, more than once, or
  // never. The stored proposals and the bindings of rooms to books are fixed.

  import opened Common
  import opened ExternalOperations

  datatype Forecast = Forecast(statement: string, confidence: real, deadline: string)

  /** A validated proposal: it carries a forecast, or it is labelled discretionary. */
  datatype Trade = Trade(symbol: string, side: string, dollars: real, rationale: string, forecast: Option<Forecast>)

  datatype Proposal = Proposal(room: string, book: string, trade: Trade, acceptedBefore: bool)

  /** The legal proposals by message id; any other message carries none. */
  type Proposals = map<string, Proposal>

  // ---- the desk ------------------------------------------------------------------------------

  datatype Post =
    | PredictionPost(key: string, book: string, forecast: Forecast)
    | FillPost(key: string, book: string, trade: Trade, predictionId: Option<nat>)

  datatype Row = Row(id: nat, post: Post)

  datatype Desk = Desk(predictions: seq<Row>, fills: seq<Row>)

  function FindRow(rows: seq<Row>, key: string): (i: nat)
    ensures i <= |rows| && (i < |rows| ==> rows[i].post.key == key)
    ensures forall k | 0 <= k < i :: rows[k].post.key != key
  {
    if rows == [] || rows[0].post.key == key then 0 else 1 + FindRow(rows[1..], key)
  }

  /** INSERT OR IGNORE on the source key. */
  function InsertOrIgnore(rows: seq<Row>, post: Post): seq<Row> {
    if FindRow(rows, post.key) < |rows| then rows else rows + [Row(|rows|, post)]
  }

  function Receive(desk: Desk, post: Post): Desk {
    if post.PredictionPost?
    then desk.(predictions := InsertOrIgnore(desk.predictions, post))
    else desk.(fills := InsertOrIgnore(desk.fills, post))
  }

  // ---- one accept ------------------------------------------------------------------------------

  datatype TradeResult = TradeResult(fill: Row, prediction: Option<Row>)

  /** Where one accept stands. `g` is the index of the grant it holds. */
  datatype Phase =
    | Ready(accepted: bool)
    | Holding(g: nat)
    | Predicted(g: nat, prediction: Row)
    | Filled(g: nat, result: TradeResult)
    | Failing(g: nat)
    | Returned(answer: TradeResult)
    | Stopped

  datatype Worker = Worker(user: string, message: string, phase: Phase)

  const SLOT := "trade_proposal"

  function KeyFor(message: string): string { "trade:" + message + ":trade_proposal" }

  function PredictionKey(message: string): string { KeyFor(message) + ":prediction" }

  function RequestFor(p: Proposal, user: string, message: string): Request {
    Request(p.room, "trade", KeyFor(message), user, Some(message), Some(SLOT))
  }

  /** The trade as the fill carries it: an unscored one says so in its rationale. */
  function Labelled(t: Trade): Trade {
    if t.forecast.None? then t.(rationale := "[unscored discretionary] " + t.rationale) else t
  }

  function PredictionOf(p: Proposal, message: string): Post
    requires p.trade.forecast.Some?
  {
    PredictionPost(PredictionKey(message), p.book, p.trade.forecast.value)
  }

  function FillOf(p: Proposal, message: string, predictionId: Option<nat>): Post {
    FillPost(KeyFor(message), p.book, Labelled(p.trade), predictionId)
  }

  /** What the accept posts next. */
  function NextPost(p: Proposal, w: Worker): Option<Post> {
    match w.phase
    case Holding(_) =>
      if p.trade.forecast.Some? then Some(PredictionOf(p, w.message)) else Some(FillOf(p, w.message, None))
    case Predicted(_, row) => Some(FillOf(p, w.message, Some(row.id)))
    case _ => None
  }

  /** The phase after the desk's answer: the desk replays the stored row for the posted key. */
  function Answered(p: Proposal, desk: Desk, w: Worker): Phase {
    match w.phase
    case Holding(g) =>
      if p.trade.forecast.Some? then
        var i := FindRow(desk.predictions, PredictionKey(w.message));
        if i < |desk.predictions| then Predicted(g, desk.predictions[i]) else w.phase
      else
        var i := FindRow(desk.fills, KeyFor(w.message));
        if i < |desk.fills| then Filled(g, TradeResult(desk.fills[i], None)) else w.phase
    case Predicted(g, row) =>
      var i := FindRow(desk.fills, KeyFor(w.message));
      if i < |desk.fills| then Filled(g, TradeResult(desk.fills[i], Some(row))) else w.phase
    case _ => w.phase
  }

  // ---- the system --------------------------------------------------------------------------------

  datatype System = System(ops: Log<TradeResult>, desk: Desk, sent: set<Post>, workers: map<nat, Worker>)

  /** What one accept can do next. */
  datatype Act = Claims(now: int) | Sends | Hears | GivesUp | Releases | Finishes | Crashes

  datatype Move = Begin(w: nat, user: string, message: string) | Arrives(post: Post) | Acts(w: nat, act: Act)

  function AcceptedFlag(s: System, p: Proposal, message: string): bool {
    p.acceptedBefore || Slot(message, SLOT) in s.ops.db.stamps
  }

  function Goto(s: System, w: nat, phase: Phase): System
    requires w in s.workers
  {
    s.(workers := s.workers[w := s.workers[w].(phase := phase)])
  }

  /** The phase that a claim's outcome puts an accept in, when the next grant has index g. */
  function ClaimedPhase(outcome: Outcome<TradeResult>, accepted: bool, g: nat): Phase {
    match outcome
    case Granted(_) => if accepted then Failing(g) else Holding(g)
    case Replayed(op) => if op.result.Some? then Returned(op.result.value) else Stopped
    case _ => Stopped
  }

  function Claiming(ps: Proposals, s: System, w: nat, now: int): System
    requires w in s.workers && s.workers[w].message in ps
  {
    var wk := s.workers[w];
    if !wk.phase.Ready? then s
    else
      var req := RequestFor(ps[wk.message], wk.user, wk.message);
      Goto(s.(ops := Step(s.ops, ClaimBy(req, now))), w,
           ClaimedPhase(Claim(s.ops.db, req, now).1, wk.phase.accepted, |s.ops.grants|))
  }

  function Finishing(s: System, w: nat): System
    requires w in s.workers
  {
    match s.workers[w].phase
    case Filled(g, result) =>
      var done := g < |s.ops.grants| && Current(s.ops.db.rows, s.ops.grants[g].op);
      Goto(s.(ops := Step(s.ops, SucceedBy(g, result))), w, if done then Returned(result) else Stopped)
    case _ => s
  }

  function Acting(ps: Proposals, s: System, w: nat, act: Act): System
    requires w in s.workers && s.workers[w].message in ps
  {
    var wk := s.workers[w];
    var post := NextPost(ps[wk.message], wk);
    match act
    case Claims(now) => Claiming(ps, s, w, now)
    case Sends => if post.Some? then s.(sent := s.sent + {post.value}) else s
    case Hears =>
      if post.Some? && post.value in s.sent then Goto(s, w, Answered(ps[wk.message], s.desk, wk)) else s
    case GivesUp => if wk.phase.Holding? || wk.phase.Predicted? then Goto(s, w, Failing(wk.phase.g)) else s
    case Releases =>
      if wk.phase.Failing? then Goto(s.(ops := Step(s.ops, FailBy(wk.phase.g))), w, Stopped) else s
    case Finishes => Finishing(s, w)
    case Crashes => if wk.phase.Returned? then s else Goto(s, w, Stopped)
  }

  /** One move; a move that is not enabled changes nothing. */
  function Next(ps: Proposals, s: System, m: Move): System {
    match m
    case Begin(w, user, message) =>
      if w in s.workers || message !in ps then s
      else s.(workers := s.workers[w := Worker(user, message, Ready(AcceptedFlag(s, ps[message], message)))])
    case Arrives(post) => if post in s.sent then s.(desk := Receive(s.desk, post)) else s
    case Acts(w, act) => if w in s.workers && s.workers[w].message in ps then Acting(ps, s, w, act) else s
  }

  function Play(ps: Proposals, s: System, moves: seq<Move>): System {
    if moves == [] then s else Next(ps, Play(ps, s, moves[..|moves| - 1]), moves[|moves| - 1])
  }

  function Start(): System { System(Empty(), Desk([], []), {}, map[]) }

  // ---- what every interleaving keeps ---------------------------------------------------------------

  ghost predicate OneRowPerKey(rows: seq<Row>) {
    && (forall i | 0 <= i < |rows| :: rows[i].id == i)
    && (forall i, j | 0 <= i < j < |rows| :: rows[i].post.key != rows[j].post.key)
  }

  /** The desk's prediction row for a message. */
  ghost predicate PredictionRow(ps: Proposals, desk: Desk, message: string, row: Row) {
    && message in ps && ps[message].trade.forecast.Some?
    && row in desk.predictions && row.post == PredictionOf(ps[message], message)
  }

  /** The prediction id that a fill of this message must carry. */
  ghost predicate RightPrediction(ps: Proposals, desk: Desk, message: string, id: Option<nat>) {
    message in ps &&
    if ps[message].trade.forecast.None? then id == None
    else id.Some? && exists row :: PredictionRow(ps, desk, message, row) && row.id == id.value
  }

  /** A post that some accept of `message` may send. */
  ghost predicate PostFor(ps: Proposals, desk: Desk, message: string, post: Post) {
    message in ps &&
    match post
    case PredictionPost(_, _, _) => ps[message].trade.forecast.Some? && post == PredictionOf(ps[message], message)
    case FillPost(_, _, _, id) => post == FillOf(ps[message], message, id) && RightPrediction(ps, desk, message, id)
  }

  ghost predicate PostOk(ps: Proposals, desk: Desk, post: Post) {
    exists message :: PostFor(ps, desk, message, post)
  }

  ghost predicate DeskOk(ps: Proposals, desk: Desk) {
    && OneRowPerKey(desk.predictions) && OneRowPerKey(desk.fills)
    && (forall r {:trigger r in desk.predictions} | r in desk.predictions ::
          r.post.PredictionPost? && PostOk(ps, desk, r.post))
    && (forall r {:trigger r in desk.fills} | r in desk.fills :: r.post.FillPost? && PostOk(ps, desk, r.post))
  }

  ghost predicate ResultOk(ps: Proposals, desk: Desk, message: string, r: TradeResult) {
    && message in ps
    && r.fill in desk.fills && r.fill.post.key == KeyFor(message)
    && if ps[message].trade.forecast.None? then r.prediction == None
       else r.prediction.Some? && PredictionRow(ps, desk, message, r.prediction.value)
  }

  ghost predicate HoldsGrant(ops: Log<TradeResult>, message: string, g: nat) {
    g < |ops.grants| && ops.grants[g].op.key == KeyFor(message)
  }

  ghost predicate WorkerOk(ps: Proposals, s: System, w: Worker) {
    match w.phase
    case Ready(_) => true
    case Holding(g) => HoldsGrant(s.ops, w.message, g)
    case Predicted(g, row) => HoldsGrant(s.ops, w.message, g) && PredictionRow(ps, s.desk, w.message, row)
    case Filled(g, r) => HoldsGrant(s.ops, w.message, g) && ResultOk(ps, s.desk, w.message, r)
    case Failing(g) => HoldsGrant(s.ops, w.message, g)
    case Returned(r) => ResultOk(ps, s.desk, w.message, r)
    case Stopped => true
  }

  /** Row i of the operations table belongs to a proposal, and its result is the desk's pair. */
  ghost predicate OperationFor(ps: Proposals, desk: Desk, op: Operation<TradeResult>, message: string) {
    && message in ps && op.key == KeyFor(message) && op.slot == Some(Slot(message, SLOT))
    && op.room == ps[message].room && op.kind == "trade"
    && (op.status == Succeeded ==> op.result.Some? && ResultOk(ps, desk, message, op.result.value))
  }

  ghost predicate OperationOk(ps: Proposals, desk: Desk, op: Operation<TradeResult>) {
    exists message :: OperationFor(ps, desk, op, message)
  }

  ghost predicate Safe(ps: Proposals, s: System) {
    && Inv(s.ops)
    && DeskOk(ps, s.desk)
    && (forall post {:trigger post in s.sent} | post in s.sent :: PostOk(ps, s.desk, post))
    && (forall w {:trigger s.workers[w]} | w in s.workers ::
          s.workers[w].message in ps && WorkerOk(ps, s, s.workers[w]))
    && (forall i {:trigger s.ops.db.rows[i]} | 0 <= i < |s.ops.db.rows| :: OperationOk(ps, s.desk, s.ops.db.rows[i]))
  }

  // ---- keys ----------------------------------------------------------------------------------------

  lemma KeysTellMessagesApart(a: string, b: string)
    requires KeyFor(a) == KeyFor(b) || PredictionKey(a) == PredictionKey(b)
    ensures a == b
  {
    if PredictionKey(a) == PredictionKey(b) {
      assert KeyFor(a) == PredictionKey(a)[..|PredictionKey(a)| - 11];
      assert KeyFor(b) == PredictionKey(b)[..|PredictionKey(b)| - 11];
    }
    assert a == KeyFor(a)[6..|KeyFor(a)| - 15];
    assert b == KeyFor(b)[6..|KeyFor(b)| - 15];
  }

  // ---- the desk only grows -----------------------------------------------------------------------------

  ghost predicate Grows(d: Desk, d': Desk) {
    d.predictions <= d'.predictions && d.fills <= d'.fills
  }

  lemma GrowsKeepsRows(d: Desk, d': Desk)
    requires Grows(d, d')
    ensures forall r | r in d.predictions :: r in d'.predictions
    ensures forall r | r in d.fills :: r in d'.fills
  {
  }

  lemma GrowsKeepsPrediction(ps: Proposals, d: Desk, d': Desk, message: string, id: Option<nat>)
    requires Grows(d, d') && RightPrediction(ps, d, message, id)
    ensures RightPrediction(ps, d', message, id)
  {
    GrowsKeepsRows(d, d');
    if ps[message].trade.forecast.Some? {
      var row :| PredictionRow(ps, d, message, row) && row.id == id.value;
      assert PredictionRow(ps, d', message, row);
    }
  }

  lemma GrowsKeepsPost(ps: Proposals, d: Desk, d': Desk, post: Post)
    requires Grows(d, d') && PostOk(ps, d, post)
    ensures PostOk(ps, d', post)
  {
    var message :| PostFor(ps, d, message, post);
    if post.FillPost? {
      GrowsKeepsPrediction(ps, d, d', message, post.predictionId);
    }
    assert PostFor(ps, d', message, post);
  }

  lemma GrowsKeepsResult(ps: Proposals, d: Desk, d': Desk, message: string, r: TradeResult)
    requires Grows(d, d') && ResultOk(ps, d, message, r)
    ensures ResultOk(ps, d', message, r)
  {
    GrowsKeepsRows(d, d');
  }

  lemma GrowsKeepsOperation(ps: Proposals, d: Desk, d': Desk, op: Operation<TradeResult>)
    requires Grows(d, d') && OperationOk(ps, d, op)
    ensures OperationOk(ps, d', op)
  {
    var message :| OperationFor(ps, d, op, message);
    if op.status == Succeeded {
      GrowsKeepsResult(ps, d, d', message, op.result.value);
    }
    assert OperationFor(ps, d', op, message);
  }

  lemma GrowsKeepsWorker(ps: Proposals, s: System, t: System, w: Worker)
    requires Grows(s.desk, t.desk) && s.ops.grants <= t.ops.grants && WorkerOk(ps, s, w)
    ensures WorkerOk(ps, t, w)
  {
    GrowsKeepsRows(s.desk, t.desk);
  }

  lemma ReceiveKeepsDesk(ps: Proposals, d: Desk, post: Post)
    requires DeskOk(ps, d) && PostOk(ps, d, post)
    ensures DeskOk(ps, Receive(d, post)) && Grows(d, Receive(d, post))
  {
    var d' := Receive(d, post);
    forall p | PostOk(ps, d, p) ensures PostOk(ps, d', p) {
      GrowsKeepsPost(ps, d, d', p);
    }
  }

  // ---- every move keeps the system safe ------------------------------------------------------------------

  lemma ArrivesKeepsSafe(ps: Proposals, s: System, post: Post)
    requires Safe(ps, s) && post in s.sent
    ensures Safe(ps, Next(ps, s, Arrives(post)))
  {
    var t := Next(ps, s, Arrives(post));
    assert PostOk(ps, s.desk, post);
    ReceiveKeepsDesk(ps, s.desk, post);
    forall q | q in t.sent ensures PostOk(ps, t.desk, q) {
      assert PostOk(ps, s.desk, q);
      GrowsKeepsPost(ps, s.desk, t.desk, q);
    }
    forall w | w in t.workers ensures WorkerOk(ps, t, t.workers[w]) {
      GrowsKeepsWorker(ps, s, t, s.workers[w]);
    }
    forall i | 0 <= i < |t.ops.db.rows| ensures OperationOk(ps, t.desk, t.ops.db.rows[i]) {
      GrowsKeepsOperation(ps, s.desk, t.desk, s.ops.db.rows[i]);
    }
  }

  lemma SendsKeepsSafe(ps: Proposals, s: System, w: nat)
    requires Safe(ps, s) && w in s.workers
    ensures Safe(ps, Acting(ps, s, w, Sends))
  {
    var wk := s.workers[w];
    var post := NextPost(ps[wk.message], wk);
    assert WorkerOk(ps, s, wk);
    if post.Some? {
      assert PostFor(ps, s.desk, wk.message, post.value);
      forall q | q in s.sent + {post.value} ensures PostOk(ps, s.desk, q) {}
    }
    var t := Acting(ps, s, w, Sends);
    forall v | v in t.workers ensures WorkerOk(ps, t, t.workers[v]) {
      GrowsKeepsWorker(ps, s, t, s.workers[v]);
    }
  }

  /** The desk's stored row for a key is the row of the message the key was made from. */
  lemma StoredPrediction(ps: Proposals, d: Desk, message: string, i: nat)
    requires DeskOk(ps, d) && message in ps
    requires i < |d.predictions| && d.predictions[i].post.key == PredictionKey(message)
    ensures PredictionRow(ps, d, message, d.predictions[i])
  {
    var row := d.predictions[i];
    assert row in d.predictions;
    var other :| PostFor(ps, d, other, row.post);
    KeysTellMessagesApart(other, message);
  }

  lemma StoredFill(ps: Proposals, d: Desk, message: string, fill: Row)
    requires DeskOk(ps, d) && message in ps && fill in d.fills && fill.post.key == KeyFor(message)
    ensures PostFor(ps, d, message, fill.post)
  {
    var other :| PostFor(ps, d, other, fill.post);
    KeysTellMessagesApart(other, message);
  }

  /** Moving one accept to a phase it is entitled to, with operations and desk as they are. */
  lemma GotoKeepsSafe(ps: Proposals, s: System, w: nat, phase: Phase)
    requires Safe(ps, s) && w in s.workers && WorkerOk(ps, s, s.workers[w].(phase := phase))
    ensures Safe(ps, Goto(s, w, phase))
  {
    var t := Goto(s, w, phase);
    forall v | v in t.workers ensures t.workers[v].message in ps && WorkerOk(ps, t, t.workers[v]) {
      GrowsKeepsWorker(ps, s, t, if v == w then s.workers[w].(phase := phase) else s.workers[v]);
    }
  }

  lemma HearsKeepsSafe(ps: Proposals, s: System, w: nat)
    requires Safe(ps, s) && w in s.workers
    ensures Safe(ps, Acting(ps, s, w, Hears))
  {
    var wk := s.workers[w];
    var p := ps[wk.message];
    assert WorkerOk(ps, s, wk);
    if wk.phase.Holding? && p.trade.forecast.Some? {
      var i := FindRow(s.desk.predictions, PredictionKey(wk.message));
      if i < |s.desk.predictions| { StoredPrediction(ps, s.desk, wk.message, i); }
    }
    assert WorkerOk(ps, s, wk.(phase := Answered(p, s.desk, wk)));
    GotoKeepsSafe(ps, s, w, Answered(p, s.desk, wk));
  }

  /** Replacing the operations log by a legal successor whose rows are all accounted for. */
  lemma OpsKeepsSafe(ps: Proposals, s: System, ops: Log<TradeResult>)
    requires Safe(ps, s) && Inv(ops) && s.ops.grants <= ops.grants
    requires forall i {:trigger ops.db.rows[i]} | 0 <= i < |ops.db.rows| :: OperationOk(ps, s.desk, ops.db.rows[i])
    ensures Safe(ps, s.(ops := ops))
  {
    var t := s.(ops := ops);
    forall v | v in t.workers ensures t.workers[v].message in ps && WorkerOk(ps, t, t.workers[v]) {
      GrowsKeepsWorker(ps, s, t, s.workers[v]);
    }
  }

  lemma ClaimKeepsOps(ps: Proposals, s: System, user: string, message: string, now: int)
    requires Safe(ps, s) && message in ps
    ensures Safe(ps, s.(ops := Step(s.ops, ClaimBy(RequestFor(ps[message], user, message), now))))
  {
    var req := RequestFor(ps[message], user, message);
    var ops := Step(s.ops, ClaimBy(req, now));
    ClaimKeepsInv(s.ops, req, now);
    forall i | 0 <= i < |ops.db.rows| ensures OperationOk(ps, s.desk, ops.db.rows[i]) {
      if i < |s.ops.db.rows| && ops.db.rows[i] == s.ops.db.rows[i] {
        assert OperationOk(ps, s.desk, s.ops.db.rows[i]);
      } else {
        assert OperationFor(ps, s.desk, ops.db.rows[i], message);
      }
    }
    OpsKeepsSafe(ps, s, ops);
  }

  lemma ReplayIsRight(ps: Proposals, s: System, user: string, message: string, now: int, op: Operation<TradeResult>)
    requires Safe(ps, s) && message in ps
    requires Claim(s.ops.db, RequestFor(ps[message], user, message), now).1 == Replayed(op)
    ensures op.result.Some? && ResultOk(ps, s.desk, message, op.result.value)
  {
    var i := Colliding(s.ops.db.rows, RequestFor(ps[message], user, message));
    assert op == s.ops.db.rows[i];
    var other :| OperationFor(ps, s.desk, op, other);
    KeysTellMessagesApart(other, message);
  }

  lemma ClaimedPhaseIsOk(ps: Proposals, s: System, w: nat, now: int)
    requires Safe(ps, s) && w in s.workers && s.workers[w].phase.Ready?
    ensures var wk := s.workers[w];
            var req := RequestFor(ps[wk.message], wk.user, wk.message);
            WorkerOk(ps, s.(ops := Step(s.ops, ClaimBy(req, now))),
                     wk.(phase := ClaimedPhase(Claim(s.ops.db, req, now).1, wk.phase.accepted, |s.ops.grants|)))
  {
    var wk := s.workers[w];
    var outcome := Claim(s.ops.db, RequestFor(ps[wk.message], wk.user, wk.message), now).1;
    if outcome.Replayed? { ReplayIsRight(ps, s, wk.user, wk.message, now, outcome.op); }
  }

  lemma ClaimsKeepsSafe(ps: Proposals, s: System, w: nat, now: int)
    requires Safe(ps, s) && w in s.workers
    ensures Safe(ps, Acting(ps, s, w, Claims(now)))
  {
    var wk := s.workers[w];
    if wk.phase.Ready? {
      var req := RequestFor(ps[wk.message], wk.user, wk.message);
      ClaimKeepsOps(ps, s, wk.user, wk.message, now);
      ClaimedPhaseIsOk(ps, s, w, now);
      GotoKeepsSafe(ps, s.(ops := Step(s.ops, ClaimBy(req, now))), w,
                    ClaimedPhase(Claim(s.ops.db, req, now).1, wk.phase.accepted, |s.ops.grants|));
    }
  }

  /** Finishing or releasing grant g, with a result that is the desk's pair for its message. */
  lemma SettleKeepsSafe(ps: Proposals, s: System, message: string, e: Event<TradeResult>)
    requires Safe(ps, s) && !e.ClaimBy? && HoldsGrant(s.ops, message, e.g) && message in ps
    requires e.SucceedBy? ==> ResultOk(ps, s.desk, message, e.result)
    ensures Safe(ps, s.(ops := Step(s.ops, e)))
  {
    var ops := Step(s.ops, e);
    FinishKeepsInv(s.ops, e);
    assert GrantOk(s.ops, s.ops.grants[e.g]);
    forall i | 0 <= i < |ops.db.rows| ensures OperationOk(ps, s.desk, ops.db.rows[i]) {
      assert OperationOk(ps, s.desk, s.ops.db.rows[i]);
      var other :| OperationFor(ps, s.desk, s.ops.db.rows[i], other);
      if i == s.ops.grants[e.g].op.id {
        KeysTellMessagesApart(other, message);
      }
      assert OperationFor(ps, s.desk, ops.db.rows[i], other);
    }
    OpsKeepsSafe(ps, s, ops);
  }

  /** Settling a grant and leaving its accept stopped, or returned with the result. */
  lemma SettlingKeepsSafe(ps: Proposals, s: System, w: nat, e: Event<TradeResult>, phase: Phase)
    requires Safe(ps, s) && w in s.workers && !e.ClaimBy? && HoldsGrant(s.ops, s.workers[w].message, e.g)
    requires e.SucceedBy? ==> ResultOk(ps, s.desk, s.workers[w].message, e.result)
    requires phase == Stopped || (e.SucceedBy? && phase == Returned(e.result))
    ensures Safe(ps, Goto(s.(ops := Step(s.ops, e)), w, phase))
  {
    SettleKeepsSafe(ps, s, s.workers[w].message, e);
    GotoKeepsSafe(ps, s.(ops := Step(s.ops, e)), w, phase);
  }

  lemma ReleasesKeepsSafe(ps: Proposals, s: System, w: nat)
    requires Safe(ps, s) && w in s.workers
    ensures Safe(ps, Acting(ps, s, w, Releases))
  {
    var wk := s.workers[w];
    if wk.phase.Failing? {
      assert WorkerOk(ps, s, wk);
      SettlingKeepsSafe(ps, s, w, FailBy(wk.phase.g), Stopped);
    }
  }

  lemma FinishesKeepsSafe(ps: Proposals, s: System, w: nat)
    requires Safe(ps, s) && w in s.workers
    ensures Safe(ps, Acting(ps, s, w, Finishes))
  {
    var wk := s.workers[w];
    if wk.phase.Filled? {
      assert WorkerOk(ps, s, wk);
      var done := Current(s.ops.db.rows, s.ops.grants[wk.phase.g].op);
      SettlingKeepsSafe(ps, s, w, SucceedBy(wk.phase.g, wk.phase.result),
                        if done then Returned(wk.phase.result) else Stopped);
    }
  }

  lemma ActingKeepsSafe(ps: Proposals, s: System, w: nat, act: Act)
    requires Safe(ps, s) && w in s.workers
    ensures Safe(ps, Acting(ps, s, w, act))
  {
    var wk := s.workers[w];
    match act
    case Claims(now) => ClaimsKeepsSafe(ps, s, w, now);
    case Sends => SendsKeepsSafe(ps, s, w);
    case Hears => HearsKeepsSafe(ps, s, w);
    case GivesUp =>
      assert WorkerOk(ps, s, wk);
      if wk.phase.Holding? || wk.phase.Predicted? { GotoKeepsSafe(ps, s, w, Failing(wk.phase.g)); }
    case Releases => ReleasesKeepsSafe(ps, s, w);
    case Finishes => FinishesKeepsSafe(ps, s, w);
    case Crashes => GotoKeepsSafe(ps, s, w, Stopped);
  }

  lemma NextKeepsSafe(ps: Proposals, s: System, m: Move)
    requires Safe(ps, s)
    ensures Safe(ps, Next(ps, s, m))
  {
    match m
    case Begin(w, user, message) =>
      var t := Next(ps, s, m);
      forall v | v in t.workers ensures t.workers[v].message in ps && WorkerOk(ps, t, t.workers[v]) {
        if v in s.workers { GrowsKeepsWorker(ps, s, t, s.workers[v]); }
      }
    case Arrives(post) => if post in s.sent { ArrivesKeepsSafe(ps, s, post); }
    case Acts(w, act) => if w in s.workers { ActingKeepsSafe(ps, s, w, act); }
  }

  lemma {:induction false} PlayOnKeepsSafe(ps: Proposals, s: System, moves: seq<Move>)
    requires Safe(ps, s)
    ensures Safe(ps, Play(ps, s, moves))
  {
    if moves != [] {
      PlayOnKeepsSafe(ps, s, moves[..|moves| - 1]);
      NextKeepsSafe(ps, Play(ps, s, moves[..|moves| - 1]), moves[|moves| - 1]);
    }
  }

  /** Every reachable state is safe. */
  lemma {:induction false} PlayKeepsSafe(ps: Proposals, moves: seq<Move>)
    ensures Safe(ps, Play(ps, Start(), moves))
  {
    PlayOnKeepsSafe(ps, Start(), moves);
  }
}
