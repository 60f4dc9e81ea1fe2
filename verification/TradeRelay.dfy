/** What the transition system of trade accepts promises, and the imperative accept as one of its runs. */
module TradeRelay {
  import opened Common
  import opened ExternalOperations
  import opened TradeSystem

  // ---- what is promised ----------------------------------------------------------------------------------

  /** Every accept of a proposal that returns a result returns the same one. */
  lemma {:induction false} EveryAcceptReturnsTheSame(ps: Proposals, moves: seq<Move>, w: nat, v: nat)
    requires var s := Play(ps, Start(), moves);
             && w in s.workers && v in s.workers && s.workers[w].message == s.workers[v].message
             && s.workers[w].phase.Returned? && s.workers[v].phase.Returned?
    ensures var s := Play(ps, Start(), moves);
            s.workers[w].phase.answer == s.workers[v].phase.answer
  {
    PlayKeepsSafe(ps, moves);
    var s := Play(ps, Start(), moves);
    assert WorkerOk(ps, s, s.workers[w]) && WorkerOk(ps, s, s.workers[v]);
  }

  /** The desk holds at most one fill and one prediction for a proposal; the fill is the proposed
      trade, and it names that prediction exactly when the proposal carries a forecast. */
  lemma {:induction false} OneFillOnePrediction(ps: Proposals, moves: seq<Move>, message: string, fill: Row)
    requires message in ps
    requires fill in Play(ps, Start(), moves).desk.fills && fill.post.key == KeyFor(message)
    ensures var d := Play(ps, Start(), moves).desk;
            && (forall other | other in d.fills && other.post.key == KeyFor(message) :: other == fill)
            && fill.post.FillPost? && fill.post == FillOf(ps[message], message, fill.post.predictionId)
            && if ps[message].trade.forecast.None? then fill.post.predictionId == None
               else exists row ::
                      PredictionRow(ps, d, message, row) && fill.post.predictionId == Some(row.id)
                      && forall other | other in d.predictions && other.post.key == PredictionKey(message) ::
                           other == row
  {
    PlayKeepsSafe(ps, moves);
    var d := Play(ps, Start(), moves).desk;
    StoredFill(ps, d, message, fill);
    if ps[message].trade.forecast.Some? {
      var row :| PredictionRow(ps, d, message, row) && row.id == fill.post.predictionId.value;
      assert PredictionRow(ps, d, message, row);
    }
  }

  /** At every moment, between the two writes as well, the desk holds at most one prediction for a
      proposal, and it is the proposed forecast. */
  lemma {:induction false} OnePrediction(ps: Proposals, moves: seq<Move>, message: string, row: Row)
    requires message in ps
    requires row in Play(ps, Start(), moves).desk.predictions && row.post.key == PredictionKey(message)
    ensures var d := Play(ps, Start(), moves).desk;
            && PredictionRow(ps, d, message, row)
            && forall other | other in d.predictions && other.post.key == PredictionKey(message) :: other == row
  {
    PlayKeepsSafe(ps, moves);
    var d := Play(ps, Start(), moves).desk;
    var i :| 0 <= i < |d.predictions| && d.predictions[i] == row;
    StoredPrediction(ps, d, message, i);
  }

  /** The fill is posted to the proposal's own book with the proposed symbol, side and amount; without a
      forecast its rationale says that it is not scored. */
  ghost predicate IsTheTrade(p: Proposal, message: string, post: Post) {
    && post.FillPost? && post.key == "trade:" + message + ":trade_proposal" && post.book == p.book
    && post.trade.symbol == p.trade.symbol && post.trade.side == p.trade.side && post.trade.dollars == p.trade.dollars
    && post.trade.rationale == if p.trade.forecast.Some? then p.trade.rationale
                               else "[unscored discretionary] " + p.trade.rationale
  }

  /** The prediction is linked to that book and is the proposed forecast. */
  ghost predicate IsTheForecast(p: Proposal, message: string, post: Post) {
    && post.PredictionPost? && post.key == "trade:" + message + ":trade_proposal:prediction"
    && post.book == p.book && p.trade.forecast == Some(post.forecast)
  }

  /** A result is the proposed trade, with the proposed forecast exactly if there is one, and the fill names its id. */
  ghost predicate IsThePair(p: Proposal, message: string, r: TradeResult) {
    && IsTheTrade(p, message, r.fill.post)
    && (p.trade.forecast.Some? <==> r.prediction.Some?)
    && (r.prediction.Some? ==> IsTheForecast(p, message, r.prediction.value.post))
    && r.fill.post.predictionId == if r.prediction.Some? then Some(r.prediction.value.id) else None
  }

  lemma ProposedPosts(p: Proposal, message: string, id: Option<nat>)
    ensures IsTheTrade(p, message, FillOf(p, message, id))
    ensures p.trade.forecast.Some? ==> IsTheForecast(p, message, PredictionOf(p, message))
  {
    assert "trade:" + message + ":trade_proposal" + ":prediction" == "trade:" + message + ":trade_proposal:prediction";
  }

  /** Every fill and every prediction that the desk holds for a proposal is the proposed one, field by field. */
  lemma {:induction false} DeskHoldsTheTrade(ps: Proposals, moves: seq<Move>, message: string, row: Row)
    requires message in ps
    ensures var d := Play(ps, Start(), moves).desk;
            && (row in d.fills && row.post.key == KeyFor(message) ==> IsTheTrade(ps[message], message, row.post))
            && (row in d.predictions && row.post.key == PredictionKey(message) ==>
                  IsTheForecast(ps[message], message, row.post))
  {
    PlayKeepsSafe(ps, moves);
    var d := Play(ps, Start(), moves).desk;
    if row in d.fills && row.post.key == KeyFor(message) {
      StoredFill(ps, d, message, row);
      ProposedPosts(ps[message], message, row.post.predictionId);
    }
    if row in d.predictions && row.post.key == PredictionKey(message) {
      var i :| 0 <= i < |d.predictions| && d.predictions[i] == row;
      StoredPrediction(ps, d, message, i);
      ProposedPosts(ps[message], message, None);
    }
  }

  lemma ResultIsThePair(ps: Proposals, desk: Desk, message: string, r: TradeResult)
    requires DeskOk(ps, desk) && ResultOk(ps, desk, message, r)
    ensures IsThePair(ps[message], message, r)
  {
    StoredFill(ps, desk, message, r.fill);
    ProposedPosts(ps[message], message, r.fill.post.predictionId);
    if ps[message].trade.forecast.Some? {
      var row :| PredictionRow(ps, desk, message, row) && Some(row.id) == r.fill.post.predictionId;
      assert row in desk.predictions && r.prediction.value in desk.predictions;
    }
  }

  lemma AnswerIsThePair(ps: Proposals, s: System, moves: seq<Move>, w: nat)
    ensures var t := Play(ps, s, moves);
            Safe(ps, s) && w in t.workers && t.workers[w].phase.Returned? ==>
              var wk := t.workers[w]; wk.message in ps && IsThePair(ps[wk.message], wk.message, wk.phase.answer)
  {
    var t := Play(ps, s, moves);
    if Safe(ps, s) && w in t.workers && t.workers[w].phase.Returned? {
      PlayOnKeepsSafe(ps, s, moves);
      assert WorkerOk(ps, t, t.workers[w]);
      ResultIsThePair(ps, t.desk, t.workers[w].message, t.workers[w].phase.answer);
    }
  }

  /** Whatever an accept has returned is the proposed trade and forecast. */
  lemma {:induction false} ReturnedIsThePair(ps: Proposals, moves: seq<Move>, w: nat)
    requires w in Play(ps, Start(), moves).workers && Play(ps, Start(), moves).workers[w].phase.Returned?
    ensures var wk := Play(ps, Start(), moves).workers[w];
            wk.message in ps && IsThePair(ps[wk.message], wk.message, wk.phase.answer)
  {
    PlayKeepsSafe(ps, []);
    AnswerIsThePair(ps, Start(), moves, w);
  }

  // ---- who accepted ------------------------------------------------------------------------------------------

  /** The grants and the operation rows of a message were asked for by users who began to accept it. */
  ghost predicate AskedByAccepter(s: System, g: nat) {
    g < |s.ops.grants| &&
    exists w :: w in s.workers && s.ops.grants[g].op.key == KeyFor(s.workers[w].message)
                && s.ops.grants[g].asker == s.workers[w].user
  }

  ghost predicate AllAsked(s: System) {
    forall g {:trigger AskedByAccepter(s, g)} | 0 <= g < |s.ops.grants| :: AskedByAccepter(s, g)
  }

  /** Accepts keep their user and message, and grants are only added. */
  lemma MoveKeepsAccepts(ps: Proposals, s: System, m: Move)
    ensures var t := Next(ps, s, m);
            && s.ops.grants <= t.ops.grants
            && forall w | w in s.workers ::
                 w in t.workers && t.workers[w].user == s.workers[w].user
                 && t.workers[w].message == s.workers[w].message
  {
  }

  lemma NewGrantIsAsked(ps: Proposals, s: System, m: Move, g: nat)
    requires |s.ops.grants| <= g < |Next(ps, s, m).ops.grants|
    ensures AskedByAccepter(Next(ps, s, m), g)
  {
    var wk := s.workers[m.w];
    var i := Colliding(s.ops.db.rows, RequestFor(ps[wk.message], wk.user, wk.message));
    assert m.w in Next(ps, s, m).workers;
  }

  lemma {:induction false} GrantsAreAsked(ps: Proposals, moves: seq<Move>)
    ensures AllAsked(Play(ps, Start(), moves))
  {
    if moves != [] {
      var init, m := moves[..|moves| - 1], moves[|moves| - 1];
      var s, t := Play(ps, Start(), init), Play(ps, Start(), moves);
      GrantsAreAsked(ps, init);
      MoveKeepsAccepts(ps, s, m);
      forall g | 0 <= g < |t.ops.grants| ensures AskedByAccepter(t, g) {
        if g < |s.ops.grants| {
          assert AskedByAccepter(s, g);
          var w :| w in s.workers && s.ops.grants[g].op.key == KeyFor(s.workers[w].message)
                   && s.ops.grants[g].asker == s.workers[w].user;
          assert w in t.workers;
        } else {
          NewGrantIsAsked(ps, s, m, g);
        }
      }
    }
  }

  /** The acceptance stamp of a proposal names a user who accepted that very proposal. */
  lemma {:induction false} StampNamesAnAccepter(ps: Proposals, moves: seq<Move>, message: string)
    requires Slot(message, "trade_proposal") in Play(ps, Start(), moves).ops.db.stamps
    ensures var s := Play(ps, Start(), moves);
            exists w :: w in s.workers && s.workers[w].message == message
                        && s.workers[w].user == s.ops.db.stamps[Slot(message, "trade_proposal")]
  {
    PlayKeepsSafe(ps, moves);
    GrantsAreAsked(ps, moves);
    var s, slot := Play(ps, Start(), moves), Slot(message, SLOT);
    assert HasSlot(s.ops.db.rows, slot);
    var i: nat :| i < |s.ops.db.rows| && s.ops.db.rows[i].slot == Some(slot);
    assert HasFirst(s.ops, i);
    var g: nat :| First(s.ops, i, g);
    assert GrantOk(s.ops, s.ops.grants[g]) && AskedByAccepter(s, g);
    assert OperationOk(ps, s.desk, s.ops.db.rows[i]);
    var w :| w in s.workers && s.ops.grants[g].op.key == KeyFor(s.workers[w].message)
             && s.ops.grants[g].asker == s.workers[w].user;
    KeysTellMessagesApart(s.workers[w].message, message);
  }

  // ---- proposals that were accepted before -----------------------------------------------------------------

  /** A post for this proposal. */
  predicate ConcernsProposal(post: Post, message: string) {
    post.key == if post.FillPost? then KeyFor(message) else PredictionKey(message)
  }

  /** Nothing has been posted for the proposal, and no accept of it is about to. */
  ghost predicate Untouched(s: System, message: string) {
    && (forall post | post in s.sent :: !ConcernsProposal(post, message))
    && (forall row | row in s.desk.fills || row in s.desk.predictions :: !ConcernsProposal(row.post, message))
    && forall w {:trigger s.workers[w]} | w in s.workers && s.workers[w].message == message ::
         match s.workers[w].phase
         case Ready(accepted) => accepted
         case Holding(_) => false
         case Predicted(_, _) => false
         case Filled(_, _) => false
         case _ => true
  }

  lemma ArrivalKeepsUntouched(s: System, message: string, post: Post)
    requires Untouched(s, message) && post in s.sent
    ensures Untouched(s.(desk := Receive(s.desk, post)), message)
  {
  }

  lemma SendingKeepsUntouched(ps: Proposals, s: System, w: nat, message: string)
    requires Untouched(s, message) && w in s.workers && s.workers[w].message in ps
    ensures Untouched(Acting(ps, s, w, Sends), message)
  {
    var wk := s.workers[w];
    var post := NextPost(ps[wk.message], wk);
    if post.Some? && ConcernsProposal(post.value, message) {
      KeysTellMessagesApart(wk.message, message);
    }
  }

  lemma MoveKeepsUntouched(ps: Proposals, s: System, m: Move, message: string)
    requires message in ps && ps[message].acceptedBefore && Untouched(s, message)
    ensures Untouched(Next(ps, s, m), message)
  {
    match m
    case Begin(_, _, _) =>
    case Arrives(post) => if post in s.sent { ArrivalKeepsUntouched(s, message, post); }
    case Acts(w, act) =>
      if w in s.workers && s.workers[w].message in ps {
        match act
        case Sends => SendingKeepsUntouched(ps, s, w, message);
        case _ =>
      }
  }

  /** Whatever happens, nothing is ever posted for a proposal that was marked as accepted beforehand. */
  lemma {:induction false} AcceptedBeforeIsNotPosted(ps: Proposals, moves: seq<Move>, message: string)
    requires message in ps && ps[message].acceptedBefore
    ensures Untouched(Play(ps, Start(), moves), message)
  {
    if moves != [] {
      AcceptedBeforeIsNotPosted(ps, moves[..|moves| - 1], message);
      MoveKeepsUntouched(ps, Play(ps, Start(), moves[..|moves| - 1]), moves[|moves| - 1], message);
    }
  }

  // ---- what was returned is recorded ---------------------------------------------------------------------------

  /** What an accept returned is the desk's pair, and the operation is settled with exactly that. */
  lemma {:induction false} ReturnedIsRecorded(ps: Proposals, moves: seq<Move>, w: nat)
    requires w in Play(ps, Start(), moves).workers && Play(ps, Start(), moves).workers[w].phase.Returned?
    ensures var s := Play(ps, Start(), moves);
            var wk := s.workers[w];
            && Settled(s, wk.message, wk.phase.answer)
            && Slot(wk.message, SLOT) in s.ops.db.stamps
  {
    ReturnedIsSettled(ps, moves, w);
    PlayKeepsSafe(ps, moves);
    var s := Play(ps, Start(), moves);
    var wk := s.workers[w];
    var i: nat :| SettledAt(s, i, wk.message, wk.phase.answer);
    var other :| OperationFor(ps, s.desk, s.ops.db.rows[i], other);
    KeysTellMessagesApart(other, wk.message);
  }

  ghost predicate SettledAt(s: System, i: nat, message: string, r: TradeResult) {
    && i < |s.ops.db.rows| && s.ops.db.rows[i].key == KeyFor(message)
    && s.ops.db.rows[i].status == Succeeded && s.ops.db.rows[i].result == Some(r)
  }

  ghost predicate Settled(s: System, message: string, r: TradeResult) {
    exists i: nat :: SettledAt(s, i, message, r)
  }

  lemma {:induction false} ReturnedIsSettled(ps: Proposals, moves: seq<Move>, w: nat)
    requires w in Play(ps, Start(), moves).workers && Play(ps, Start(), moves).workers[w].phase.Returned?
    ensures var s := Play(ps, Start(), moves);
            Settled(s, s.workers[w].message, s.workers[w].phase.answer)
  {
    if moves != [] {
      var init, m := moves[..|moves| - 1], moves[|moves| - 1];
      var s, t := Play(ps, Start(), init), Next(ps, Play(ps, Start(), init), m);
      PlayKeepsSafe(ps, init);
      if w in s.workers && s.workers[w].phase.Returned? {
        ReturnedIsSettled(ps, init, w);
        var wk := s.workers[w];
        var i: nat :| SettledAt(s, i, wk.message, wk.phase.answer);
        MoveKeepsSuccess(ps, s, m, i);
        ReturnedStays(ps, s, m, w);
        assert SettledAt(t, i, wk.message, wk.phase.answer);
      } else {
        JustReturned(ps, s, m, w);
      }
    }
  }

  lemma ReturnedStays(ps: Proposals, s: System, m: Move, w: nat)
    requires w in s.workers && s.workers[w].phase.Returned?
    ensures var t := Next(ps, s, m);
            w in t.workers && t.workers[w] == s.workers[w]
  {
  }

  lemma MoveKeepsSuccess(ps: Proposals, s: System, m: Move, i: nat)
    requires i < |s.ops.db.rows| && s.ops.db.rows[i].status == Succeeded
    ensures var t := Next(ps, s, m); i < |t.ops.db.rows| && t.ops.db.rows[i] == s.ops.db.rows[i]
  {
  }

  lemma JustReturned(ps: Proposals, s: System, m: Move, w: nat)
    requires Safe(ps, s) && !(w in s.workers && s.workers[w].phase.Returned?)
    requires w in Next(ps, s, m).workers && Next(ps, s, m).workers[w].phase.Returned?
    ensures var t := Next(ps, s, m); Settled(t, t.workers[w].message, t.workers[w].phase.answer)
  {
    match m
    case Begin(_, _, _) =>
    case Arrives(_) =>
    case Acts(v, act) =>
      assert v == w;
      var wk := s.workers[w];
      match act
      case Claims(now) => ClaimSettled(ps, s, w, now);
      case Finishes => FinishSettled(ps, s, w);
      case _ =>
  }

  lemma ClaimSettled(ps: Proposals, s: System, w: nat, now: int)
    requires w in s.workers && s.workers[w].message in ps && s.workers[w].phase.Ready?
    requires Claiming(ps, s, w, now).workers[w].phase.Returned?
    ensures var t := Claiming(ps, s, w, now); Settled(t, t.workers[w].message, t.workers[w].phase.answer)
  {
    var wk, t := s.workers[w], Claiming(ps, s, w, now);
    var i := Colliding(s.ops.db.rows, RequestFor(ps[wk.message], wk.user, wk.message));
    assert SettledAt(t, i, wk.message, t.workers[w].phase.answer);
  }

  lemma FinishSettled(ps: Proposals, s: System, w: nat)
    requires Safe(ps, s) && w in s.workers && s.workers[w].phase.Filled?
    requires Finishing(s, w).workers[w].phase.Returned?
    ensures var t := Finishing(s, w); Settled(t, t.workers[w].message, t.workers[w].phase.answer)
  {
    var wk, t := s.workers[w], Finishing(s, w);
    assert WorkerOk(ps, s, wk);
    assert GrantOk(s.ops, s.ops.grants[wk.phase.g]);
    assert SettledAt(t, s.ops.grants[wk.phase.g].op.id, wk.message, t.workers[w].phase.answer);
  }

  // ---- one accept, start to end, against the table and the desk ---------------------------------------------

  class TradingDesk {
    var predictions: seq<Row>
    var fills: seq<Row>

    ghost function State(): Desk
      reads this
    {
      Desk(predictions, fills)
    }

    /** Stores the post unless its key is taken, and replays the stored row. */
    method Store(post: Post) returns (row: Row)
      modifies this
      ensures State() == Receive(old(State()), post)
      ensures var rows := if post.PredictionPost? then predictions else fills;
              FindRow(rows, post.key) < |rows| && row == rows[FindRow(rows, post.key)]
    {
      StoredIsFound(if post.PredictionPost? then predictions else fills, post);
      if post.PredictionPost? {
        predictions := InsertOrIgnore(predictions, post);
        return predictions[FindRow(predictions, post.key)];
      }
      fills := InsertOrIgnore(fills, post);
      return fills[FindRow(fills, post.key)];
    }
  }

  lemma {:induction false} StoredIsFound(rows: seq<Row>, post: Post)
    ensures FindRow(InsertOrIgnore(rows, post), post.key) < |InsertOrIgnore(rows, post)|
  {
    var i := FindRow(rows, post.key);
    if i == |rows| {
      var j := FindRow(rows + [Row(i, post)], post.key);
      assert (rows + [Row(i, post)])[i].post.key == post.key;
    }
  }

  /** What becomes of a post: answered, stored though the answer is lost, or lost on the way. */
  datatype Delivery = Answers | StoresSilently | Vanishes

  datatype Accepted = Done(result: TradeResult) | NoProposal | Conflict | DeskError

  lemma PlayExtends(ps: Proposals, s: System, moves: seq<Move>, m: Move)
    ensures Play(ps, s, moves + [m]) == Next(ps, Play(ps, s, moves), m)
  {
    assert (moves + [m])[..|moves|] == moves;
  }

  /** One post of accept w: sent, and as the network pleases stored and answered. */
  function PostMoves(w: nat, post: Post, net: Delivery): seq<Move> {
    match net
    case Answers => [Acts(w, Sends), Arrives(post), Acts(w, Hears)]
    case StoresSilently => [Acts(w, Sends), Arrives(post), Acts(w, GivesUp)]
    case Vanishes => [Acts(w, Sends), Acts(w, GivesUp)]
  }

  lemma PostRun(ps: Proposals, s: System, w: nat, post: Post, net: Delivery)
    requires w in s.workers && s.workers[w].message in ps
    requires NextPost(ps[s.workers[w].message], s.workers[w]) == Some(post)
    ensures var t := Play(ps, s, PostMoves(w, post, net));
            && t.desk == (if net.Vanishes? then s.desk else Receive(s.desk, post))
            && t.ops == s.ops && w in t.workers
            && t.workers[w] == s.workers[w].(phase := if net.Answers?
                                                      then Answered(ps[s.workers[w].message], t.desk, s.workers[w])
                                                      else Failing(s.workers[w].phase.g))
  {
    var none: seq<Move>, sends, arrives := [], Acts(w, Sends), Arrives(post);
    PlayExtends(ps, s, none, sends);
    assert none + [sends] == [sends];
    PlayExtends(ps, s, [sends], arrives);
    assert [sends] + [arrives] == [sends, arrives];
    match net
    case Answers =>
      PlayExtends(ps, s, [sends, arrives], Acts(w, Hears));
      assert [sends, arrives] + [Acts(w, Hears)] == PostMoves(w, post, net);
    case StoresSilently =>
      PlayExtends(ps, s, [sends, arrives], Acts(w, GivesUp));
      assert [sends, arrives] + [Acts(w, GivesUp)] == PostMoves(w, post, net);
    case Vanishes =>
      PlayExtends(ps, s, [sends], Acts(w, GivesUp));
      assert [sends] + [Acts(w, GivesUp)] == PostMoves(w, post, net);
  }

  /** Sends a post of accept w to the desk; `heard` says whether the desk's answer came back. */
  method PostToDesk(ps: Proposals, desk: TradingDesk, post: Post, net: Delivery, ghost s: System, ghost w: nat)
    returns (row: Row, heard: bool, ghost moves: seq<Move>)
    requires s.desk == desk.State()
    requires w in s.workers && s.workers[w].message in ps
    requires NextPost(ps[s.workers[w].message], s.workers[w]) == Some(post)
    modifies desk
    ensures heard <==> net.Answers?
    ensures moves == PostMoves(w, post, net) && Play(ps, s, moves).desk == desk.State()
    ensures heard ==> var rows := if post.PredictionPost? then desk.predictions else desk.fills;
                      FindRow(rows, post.key) < |rows| && row == rows[FindRow(rows, post.key)]
  {
    PostRun(ps, s, w, post, net);
    row, heard, moves := Row(0, post), net.Answers?, PostMoves(w, post, net);
    if !net.Vanishes? {
      row := desk.Store(post);
    }
  }

  lemma {:induction false} PlayAppends(ps: Proposals, s: System, moves: seq<Move>, more: seq<Move>)
    ensures Play(ps, s, moves + more) == Play(ps, Play(ps, s, moves), more)
  {
    if more == [] {
      assert moves + more == moves;
    } else {
      PlayAppends(ps, s, moves, more[..|more| - 1]);
      assert (moves + more)[..|moves + more| - 1] == moves + more[..|more| - 1];
    }
  }

  /** The two writes of accept w, prediction first; a discretionary trade skips the prediction. */
  method WriteTrade(ps: Proposals, desk: TradingDesk, first: Delivery, second: Delivery, ghost s: System,
                    ghost w: nat, message: string)
    returns (result: TradeResult, ok: bool, ghost moves: seq<Move>)
    requires s.desk == desk.State() && message in ps
    requires w in s.workers && s.workers[w].message == message && s.workers[w].phase.Holding?
    modifies desk
    ensures var t := Play(ps, s, moves);
            && t.desk == desk.State() && t.ops == s.ops && w in t.workers
            && t.workers[w] == s.workers[w].(phase := if ok then Filled(s.workers[w].phase.g, result)
                                                      else Failing(s.workers[w].phase.g))
  {
    var p := ps[message];
    var row;
    if p.trade.forecast.None? {
      PostRun(ps, s, w, FillOf(p, message, None), second);
      row, ok, moves := PostToDesk(ps, desk, FillOf(p, message, None), second, s, w);
      return TradeResult(row, None), ok, moves;
    }
    PostRun(ps, s, w, PredictionOf(p, message), first);
    row, ok, moves := PostToDesk(ps, desk, PredictionOf(p, message), first, s, w);
    result := TradeResult(row, Some(row));
    if ok {
      ghost var t := Play(ps, s, moves);
      PostRun(ps, t, w, FillOf(p, message, Some(row.id)), second);
      var fill;
      ghost var more;
      fill, ok, more := PostToDesk(ps, desk, FillOf(p, message, Some(row.id)), second, t, w);
      PlayAppends(ps, s, moves, more);
      return TradeResult(fill, Some(row)), ok, moves + more;
    }
  }

  lemma {:induction false} BeginThenClaim(ps: Proposals, s: System, w: nat, user: string, message: string, now: int)
    requires message in ps && w !in s.workers
    ensures var req := RequestFor(ps[message], user, message);
            var t := Play(ps, s, [Begin(w, user, message), Acts(w, Claims(now))]);
            && t.ops == Step(s.ops, ClaimBy(req, now)) && t.desk == s.desk && w in t.workers
            && t.workers[w] == Worker(user, message,
                                      ClaimedPhase(Claim(s.ops.db, req, now).1, AcceptedFlag(s, ps[message], message),
                                                   |s.ops.grants|))
  {
    var none: seq<Move>, begin := [], Begin(w, user, message);
    PlayExtends(ps, s, none, begin);
    assert none + [begin] == [begin];
    PlayExtends(ps, s, [begin], Acts(w, Claims(now)));
    assert [begin] + [Acts(w, Claims(now))] == [begin, Acts(w, Claims(now))];
  }

  /** Reading the proposal and claiming its operation. */
  method ClaimTrade(ps: Proposals, table: OperationTable<TradeResult>, user: string, message: string, now: int,
                    ghost s: System, ghost w: nat)
    returns (claim: Outcome<TradeResult>, accepted: bool, ghost moves: seq<Move>)
    requires message in ps && w !in s.workers && s.ops.db == table.State()
    modifies table
    ensures var t := Play(ps, s, moves);
            && t.ops.db == table.State() && t.desk == s.desk && w in t.workers
            && t.workers[w] == Worker(user, message, ClaimedPhase(claim, accepted, |s.ops.grants|))
            && (claim.Granted? ==> |t.ops.grants| == |s.ops.grants| + 1 && t.ops.grants[|s.ops.grants|].op == claim.op)
  {
    var p := ps[message];
    accepted := p.acceptedBefore || Slot(message, SLOT) in table.stamps;
    claim := table.ClaimOperation(RequestFor(p, user, message), now);
    BeginThenClaim(ps, s, w, user, message, now);
    moves := [Begin(w, user, message), Acts(w, Claims(now))];
  }

  /** Everything after the proposal has been read. */
  method AcceptProposal(ps: Proposals, table: OperationTable<TradeResult>, desk: TradingDesk, user: string,
                        message: string, now: int, first: Delivery, second: Delivery, ghost s: System, ghost w: nat)
    returns (outcome: Accepted, ghost moves: seq<Move>)
    requires message in ps && w !in s.workers && s.ops.db == table.State() && s.desk == desk.State()
    modifies table, desk
    ensures !outcome.NoProposal?
    ensures var t := Play(ps, s, moves);
            && t.ops.db == table.State() && t.desk == desk.State() && w in t.workers
            && t.workers[w].message == message
            && t.workers[w].phase == if outcome.Done? then Returned(outcome.result) else Stopped
  {
    var claim, accepted;
    claim, accepted, moves := ClaimTrade(ps, table, user, message, now, s, w);
    if claim.Replayed? {
      return if claim.op.result.Some? then Done(claim.op.result.value) else Conflict, moves;
    }
    if !claim.Granted? { return Conflict, moves; }
    var result, ok;
    if !accepted {
      ghost var more;
      result, ok, more := WriteTrade(ps, desk, first, second, Play(ps, s, moves), w, message);
      PlayAppends(ps, s, moves, more);
      moves := moves + more;
      if ok {
        var done := table.SucceedOperation(claim.op, result);
        return if done then Done(result) else Conflict, moves + [Acts(w, Finishes)];
      }
    }
    table.FailOperation(claim.op);
    return if accepted then Conflict else DeskError, moves + [Acts(w, Releases)];
  }

  /**
   The whole accept as one caller executes it. Whatever the network does to its two posts, it is
   one run of the system, so everything promised of runs holds of it.
   */
  method AcceptTrade(ps: Proposals, table: OperationTable<TradeResult>, desk: TradingDesk, user: string,
                     message: string, now: int, first: Delivery, second: Delivery, ghost s: System, ghost w: nat)
    returns (outcome: Accepted, ghost moves: seq<Move>)
    requires w !in s.workers && s.ops.db == table.State() && s.desk == desk.State()
    modifies table, desk
    ensures outcome.NoProposal? <==> message !in ps
    ensures message !in ps ==> moves == []
    ensures var t := Play(ps, s, moves);
            && t.ops.db == table.State() && t.desk == desk.State()
            && (message in ps ==>
                  && w in t.workers && t.workers[w].message == message
                  && t.workers[w].phase == if outcome.Done? then Returned(outcome.result) else Stopped)
    ensures Safe(ps, s) && outcome.Done? ==> IsThePair(ps[message], message, outcome.result)
  {
    if message !in ps { return NoProposal, []; }
    outcome, moves := AcceptProposal(ps, table, desk, user, message, now, first, second, s, w);
    AnswerIsThePair(ps, s, moves, w);
  }

  // ---- recovery -------------------------------------------------------------------------------------------------

  /** No lease on the message's operation is running at `now`. */
  ghost predicate Reclaimable(s: System, message: string, now: int) {
    forall op | op in s.ops.db.rows && op.key == KeyFor(message) && op.status == Pending :: op.leaseExpires <= now
  }

  lemma ClaimGoesThrough(ps: Proposals, s: System, user: string, message: string, now: int)
    requires Safe(ps, s) && message in ps && !ps[message].acceptedBefore && Reclaimable(s, message, now)
    ensures match Claim(s.ops.db, RequestFor(ps[message], user, message), now).1
            case Granted(op) => !AcceptedFlag(s, ps[message], message)
                                && Current(Claim(s.ops.db, RequestFor(ps[message], user, message), now).0.rows, op)
            case Replayed(op) => op.result.Some?
            case _ => false
  {
    var req, rows := RequestFor(ps[message], user, message), s.ops.db.rows;
    var i := Colliding(rows, req);
    if i < |rows| {
      assert OperationOk(ps, s.desk, rows[i]);
      var other :| OperationFor(ps, s.desk, rows[i], other);
      if rows[i].key == KeyFor(message) { KeysTellMessagesApart(other, message); }
      assert other == message && rows[i] in rows;
    } else {
      assert !HasSlot(rows, Slot(message, SLOT));
    }
  }

  /** The accept that has replayed, or that holds the operation's current attempt. */
  ghost predicate UnderWay(s: System, w: nat, message: string) {
    && w in s.workers && s.workers[w].message == message
    && match s.workers[w].phase
       case Returned(_) => true
       case Holding(g) => g < |s.ops.grants| && Current(s.ops.db.rows, s.ops.grants[g].op)
       case _ => false
  }

  /** A claim when no lease is running replays the recorded result or is granted. */
  lemma ClaimGetsUnderWay(ps: Proposals, s: System, w: nat, user: string, message: string, now: int)
    requires Safe(ps, s) && message in ps && !ps[message].acceptedBefore && Reclaimable(s, message, now)
    requires w !in s.workers
    ensures UnderWay(Play(ps, s, [Begin(w, user, message), Acts(w, Claims(now))]), w, message)
  {
    BeginThenClaim(ps, s, w, user, message, now);
    ClaimGoesThrough(ps, s, user, message, now);
  }

  /** From there the accept returns, once the desk answers. */
  lemma UnderWayReturns(ps: Proposals, s: System, w: nat, message: string) returns (moves: seq<Move>)
    requires UnderWay(s, w, message) && message in ps
    ensures var t := Play(ps, s, moves);
            w in t.workers && t.workers[w].message == message && t.workers[w].phase.Returned?
  {
    if s.workers[w].phase.Holding? {
      var writes := WritesSucceed(ps, s, w);
      moves := writes + [Acts(w, Finishes)];
      PlayExtends(ps, s, writes, Acts(w, Finishes));
    } else {
      moves := [];
    }
  }

  /** From any reachable state, however many accepts crashed at whatever point, one more accept that
      starts when no lease is running and hears from the desk returns a result. */
  lemma RetryCompletes(ps: Proposals, past: seq<Move>, w: nat, user: string, message: string, now: int)
    returns (moves: seq<Move>)
    requires message in ps && !ps[message].acceptedBefore
    requires var s := Play(ps, Start(), past); w !in s.workers && Reclaimable(s, message, now)
    ensures var t := Play(ps, Start(), past + moves);
            w in t.workers && t.workers[w].message == message && t.workers[w].phase.Returned?
  {
    var s, first := Play(ps, Start(), past), [Begin(w, user, message), Acts(w, Claims(now))];
    PlayKeepsSafe(ps, past);
    ClaimGetsUnderWay(ps, s, w, user, message, now);
    var more := UnderWayReturns(ps, Play(ps, s, first), w, message);
    moves := first + more;
    PlayAppends(ps, s, first, more);
    PlayAppends(ps, Start(), past, moves);
  }

  /** One post that the desk answers takes its accept one write further. */
  lemma PostSucceeds(ps: Proposals, s: System, w: nat) returns (moves: seq<Move>)
    requires w in s.workers && s.workers[w].message in ps && NextPost(ps[s.workers[w].message], s.workers[w]).Some?
    ensures var t := Play(ps, s, moves);
            && t.ops == s.ops && w in t.workers && t.workers[w].message == s.workers[w].message
            && (t.workers[w].phase.Filled? || (s.workers[w].phase.Holding? && t.workers[w].phase.Predicted?))
            && t.workers[w].phase.g == s.workers[w].phase.g
  {
    var post := NextPost(ps[s.workers[w].message], s.workers[w]).value;
    PostRun(ps, s, w, post, Answers);
    StoredIsFound(if post.PredictionPost? then s.desk.predictions else s.desk.fills, post);
    moves := PostMoves(w, post, Answers);
  }

  lemma WritesSucceed(ps: Proposals, s: System, w: nat) returns (moves: seq<Move>)
    requires w in s.workers && s.workers[w].message in ps && s.workers[w].phase.Holding?
    ensures var t := Play(ps, s, moves);
            && t.ops == s.ops && w in t.workers && t.workers[w].message == s.workers[w].message
            && t.workers[w].phase.Filled? && t.workers[w].phase.g == s.workers[w].phase.g
  {
    moves := PostSucceeds(ps, s, w);
    var t := Play(ps, s, moves);
    if t.workers[w].phase.Predicted? {
      var more := PostSucceeds(ps, t, w);
      PlayAppends(ps, s, moves, more);
      moves := moves + more;
    }
  }
}
