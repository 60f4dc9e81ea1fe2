/** Forecast rounds: what a card shows one member, and what it keeps sealed. */
module Rounds {
  import opened Common

  type User = nat
  type QuestionId = nat
  type ScoreSheet = seq<real>

  datatype Actor = Human | House

  /** One row of a question's history. A human row may have lost its user. */
  datatype Forecast = Forecast(user: Option<User>, actor: Actor, confidence: real, peer: Option<real>, recorded: int,
                               reasoning: Option<string>)

  datatype Status = Active | Settled | Voided | Binned

  datatype Verdict = Correct | Incorrect | Void

  /** Instants are whole seconds, in UTC. */
  datatype Question = Question(id: QuestionId, claim: string, created: int, deadline: Option<int>, status: Status,
                               verdict: Option<Verdict>, settledAt: Option<int>)

  /** What the projection takes from outside: the scoring rule, the rounding and the order in which a set is listed. */
  datatype Surroundings = Surroundings(score: (Question, seq<Forecast>, seq<Forecast>) -> ScoreSheet,
                                       round: real -> real, list: set<Option<User>> -> seq<Option<User>>)

  ghost predicate ListsMembers(env: Surroundings) {
    forall s, u {:trigger u in env.list(s)} :: u in env.list(s) <==> u in s
  }

  // ---------------------------------------------------------------- the split

  function Select(history: seq<Forecast>, keep: Forecast -> bool): seq<Forecast> {
    if history == [] then []
    else if keep(history[0]) then [history[0]] + Select(history[1..], keep)
    else Select(history[1..], keep)
  }

  function HouseRows(history: seq<Forecast>): seq<Forecast> {
    Select(history, (f: Forecast) => f.actor == House)
  }

  function Humans(history: seq<Forecast>): seq<Forecast> {
    Select(history, (f: Forecast) => f.actor == Human)
  }

  function By(humans: seq<Forecast>, user: Option<User>): seq<Forecast> {
    Select(humans, (f: Forecast) => f.user == user)
  }

  function NotBy(humans: seq<Forecast>, user: Option<User>): seq<Forecast> {
    Select(humans, (f: Forecast) => f.user != user)
  }

  function Users(rows: seq<Forecast>): set<Option<User>> {
    set f | f in rows :: f.user
  }

  function Mine(history: seq<Forecast>, viewer: User): seq<Forecast> {
    By(Humans(history), Some(viewer))
  }

  function Others(history: seq<Forecast>, viewer: User): seq<Forecast> {
    NotBy(Humans(history), Some(viewer))
  }

  predicate Revealed(history: seq<Forecast>, viewer: User) {
    Mine(history, viewer) != [] && Users(Others(history, viewer)) != {}
  }

  predicate Scored(q: Question) {
    q.verdict == Some(Correct) || q.verdict == Some(Incorrect)
  }

  // ---------------------------------------------------------------- the card

  datatype OtherView = OtherView(user: Option<User>, forecast: real, revisions: nat)

  datatype HouseView = HouseView(forecast: real, revisions: nat, because: Option<string>)

  datatype Entry = Entry(id: QuestionId, claim: string, closes: Option<int>, status: Status, verdict: Option<Verdict>,
                         myForecast: Option<real>, myPeerForecast: Option<real>, myRevisions: nat, revealed: bool,
                         waitingOnOther: bool, houseCommitted: bool, others: Option<seq<OtherView>>,
                         peerReadError: Option<real>, house: Option<HouseView>, othersCommitted: Option<nat>,
                         scores: Option<ScoreSheet>)

  lemma {:induction false} Selected(history: seq<Forecast>, keep: Forecast -> bool, f: Forecast)
    ensures f in Select(history, keep) <==> f in history && keep(f)
  {
    if history != [] {
      Selected(history[1..], keep, f);
      assert f in history <==> f == history[0] || f in history[1..];
    }
  }

  lemma UserHasRows(rows: seq<Forecast>, user: Option<User>)
    requires user in Users(rows)
    ensures By(rows, user) != []
  {
    var f :| f in rows && f.user == user;
    Selected(rows, (g: Forecast) => g.user == user, f);
  }

  function OtherViews(others: seq<Forecast>, listed: seq<Option<User>>): seq<OtherView>
    requires forall u <- listed :: u in Users(others)
  {
    if listed == [] then []
    else
      UserHasRows(others, listed[0]);
      var rows := By(others, listed[0]);
      [OtherView(listed[0], rows[|rows| - 1].confidence, |rows|)] + OtherViews(others, listed[1..])
  }

  function EntryFor(q: Question, history: seq<Forecast>, viewer: User, env: Surroundings): Entry
    requires ListsMembers(env)
  {
    var humans, house := Humans(history), HouseRows(history);
    var mine, others := Mine(history, viewer), Others(history, viewer);
    var revealed := Revealed(history, viewer);
    var last := if mine == [] then None else Some(mine[|mine| - 1]);
    var myPeer := if last.Some? then last.value.peer else None;
    var views := if revealed then OtherViews(others, env.list(Users(others))) else [];
    Entry(q.id, q.claim, q.deadline, q.status, q.verdict,
          if last.Some? then Some(last.value.confidence) else None, myPeer, |mine|, revealed,
          mine != [] && others == [], house != [],
          if revealed then Some(views) else None,
          if revealed && myPeer.Some? && views != [] then Some(env.round(views[0].forecast - myPeer.value)) else None,
          if revealed && house != [] then
            Some(HouseView(house[|house| - 1].confidence, |house|, house[|house| - 1].reasoning))
          else None,
          if revealed then None else Some(|Users(others)|),
          if Scored(q) then Some(env.score(q, humans, house)) else None)
  }

  /** The response: an entry for every question of the round, in order. */
  function Card(questions: seq<Question>, histories: map<QuestionId, seq<Forecast>>, viewer: User,
                env: Surroundings): seq<Entry>
    requires ListsMembers(env)
  {
    if questions == [] then []
    else
      Card(questions[..|questions| - 1], histories, viewer, env)
      + [EntryFor(questions[|questions| - 1], HistoryOf(histories, questions[|questions| - 1].id), viewer, env)]
  }

  function HistoryOf(histories: map<QuestionId, seq<Forecast>>, id: QuestionId): seq<Forecast> {
    if id in histories then histories[id] else []
  }

  datatype Member = Member(user: User, name: string)

  /** The other members of the room, in the order in which they joined. */
  function Peers(members: seq<Member>, viewer: User): seq<Member> {
    if members == [] then []
    else if members[0].user != viewer then [members[0]] + Peers(members[1..], viewer)
    else Peers(members[1..], viewer)
  }

  method RoundState(questions: seq<Question>, histories: map<QuestionId, seq<Forecast>>, members: seq<Member>,
                    viewer: User, env: Surroundings) returns (card: seq<Entry>, peers: seq<Member>)
    requires ListsMembers(env)
    ensures card == Card(questions, histories, viewer, env) && peers == Peers(members, viewer)
  {
    card, peers := [], Peers(members, viewer);
    for n := 0 to |questions|
      invariant card == Card(questions[..n], histories, viewer, env)
    {
      assert questions[..n + 1][..n] == questions[..n];
      card := card + [EntryFor(questions[n], HistoryOf(histories, questions[n].id), viewer, env)];
    }
    assert questions[..|questions|] == questions;
  }

  // ---------------------------------------------------------------- what an open card shows

  /** The row of a person that no later row of theirs replaces. */
  predicate Latest(history: seq<Forecast>, i: int, user: Option<User>) {
    && 0 <= i < |history| && history[i].actor == Human && history[i].user == user
    && forall j :: i < j < |history| ==> history[j].actor != Human || history[j].user != user
  }

  lemma {:induction false} LastSelected(history: seq<Forecast>, keep: Forecast -> bool) returns (i: nat)
    requires Select(history, keep) != []
    ensures i < |history| && keep(history[i]) && history[i] == Select(history, keep)[|Select(history, keep)| - 1]
    ensures forall j :: i < j < |history| ==> !keep(history[j])
  {
    var rest := Select(history[1..], keep);
    if rest == [] {
      i := 0;
      forall j | 0 < j < |history| ensures !keep(history[j]) {
        Selected(history[1..], keep, history[j]);
        assert history[1..][j - 1] == history[j];
      }
    } else {
      var k := LastSelected(history[1..], keep);
      i := k + 1;
      assert forall j :: i < j < |history| ==> history[j] == history[1..][j - 1];
    }
  }

  lemma {:induction false} SelectTwice(history: seq<Forecast>, first: Forecast -> bool, second: Forecast -> bool,
                                       both: Forecast -> bool)
    requires forall f :: both(f) <==> first(f) && second(f)
    ensures Select(Select(history, first), second) == Select(history, both)
  {
    if history != [] {
      SelectTwice(history[1..], first, second, both);
      assert ([history[0]] + Select(history[1..], first))[1..] == Select(history[1..], first);
    }
  }

  lemma HumanRowsBy(history: seq<Forecast>, user: Option<User>)
    ensures By(Humans(history), user) == Select(history, (f: Forecast) => f.actor == Human && f.user == user)
  {
    SelectTwice(history, (f: Forecast) => f.actor == Human, (f: Forecast) => f.user == user,
                (f: Forecast) => f.actor == Human && f.user == user);
  }

  lemma OtherRowsBy(history: seq<Forecast>, viewer: User, user: Option<User>)
    requires user != Some(viewer)
    ensures By(Others(history, viewer), user) == By(Humans(history), user)
  {
    SelectTwice(Humans(history), (f: Forecast) => f.user != Some(viewer), (f: Forecast) => f.user == user,
                (f: Forecast) => f.user == user);
  }

  lemma LatestRow(history: seq<Forecast>, user: Option<User>) returns (i: nat)
    requires By(Humans(history), user) != []
    ensures Latest(history, i, user)
    ensures history[i] == By(Humans(history), user)[|By(Humans(history), user)| - 1]
  {
    HumanRowsBy(history, user);
    i := LastSelected(history, (f: Forecast) => f.actor == Human && f.user == user);
  }

  /** A member's own number is their latest one. */
  lemma MyForecastIsMyLatest(q: Question, history: seq<Forecast>, viewer: User, env: Surroundings)
    requires ListsMembers(env)
    ensures var mine := EntryFor(q, history, viewer, env).myForecast;
            if mine.None? then Mine(history, viewer) == []
            else exists i :: Latest(history, i, Some(viewer)) && history[i].confidence == mine.value
  {
    if Mine(history, viewer) != [] {
      var i := LatestRow(history, Some(viewer));
    }
  }

  lemma {:induction false} ViewsAre(others: seq<Forecast>, listed: seq<Option<User>>, i: nat)
    requires (forall u <- listed :: u in Users(others)) && i < |listed|
    ensures |OtherViews(others, listed)| == |listed|
    ensures var rows := By(others, listed[i]);
            rows != [] && OtherViews(others, listed)[i] == OtherView(listed[i], rows[|rows| - 1].confidence, |rows|)
  {
    UserHasRows(others, listed[0]);
    if i > 0 {
      ViewsAre(others, listed[1..], i - 1);
    } else if |listed| > 1 {
      ViewsAre(others, listed[1..], 0);
    }
  }

  ghost predicate ShowsLatest(views: seq<OtherView>, history: seq<Forecast>, user: Option<User>) {
    exists v, i {:trigger v in views, Latest(history, i, user)} ::
      v in views && v.user == user && Latest(history, i, user) && v.forecast == history[i].confidence
  }

  /** An open card shows the latest number of everyone else who has forecast. */
  lemma OpenCardShowsEveryone(q: Question, history: seq<Forecast>, viewer: User, env: Surroundings, user: Option<User>)
    requires ListsMembers(env) && Revealed(history, viewer) && user in Users(Others(history, viewer))
    ensures EntryFor(q, history, viewer, env).others.Some?
    ensures ShowsLatest(EntryFor(q, history, viewer, env).others.value, history, user)
  {
    var others := Others(history, viewer);
    var listed := env.list(Users(others));
    assert user in listed;
    var n :| 0 <= n < |listed| && listed[n] == user;
    ViewsAre(others, listed, n);
    OtherUserDiffers(history, viewer, user);
    OtherRowsBy(history, viewer, user);
    var i := LatestRow(history, user);
    var views := OtherViews(others, listed);
    assert views[n] in views;
  }

  lemma OtherUserDiffers(history: seq<Forecast>, viewer: User, user: Option<User>)
    requires user in Users(Others(history, viewer))
    ensures user != Some(viewer)
  {
    var f :| f in Others(history, viewer) && f.user == user;
    Selected(Humans(history), (g: Forecast) => g.user != Some(viewer), f);
  }

  // ---------------------------------------------------------------- the seal

  predicate Sealed(q: Question, history: seq<Forecast>, viewer: User) {
    !Revealed(history, viewer) && !Scored(q)
  }

  /** Who forecast when and as whom, and every row of the viewer's own; other rows' values are free. */
  predicate SameButValues(h: seq<Forecast>, h': seq<Forecast>, viewer: User) {
    |h| == |h'| && forall i :: 0 <= i < |h| ==> SameRow(h[i], h'[i], viewer)
  }

  predicate SameRow(f: Forecast, f': Forecast, viewer: User) {
    && f.user == f'.user && f.actor == f'.actor
    && (f.actor == Human && f.user == Some(viewer) ==> f == f')
  }

  /** All that a sealed question may depend on: the viewer's rows, who else has forecast, and whether the house has. */
  ghost predicate SameToViewer(h: seq<Forecast>, h': seq<Forecast>, viewer: User) {
    && Mine(h, viewer) == Mine(h', viewer)
    && Users(Others(h, viewer)) == Users(Others(h', viewer))
    && (HouseRows(h) == [] <==> HouseRows(h') == [])
  }

  lemma {:induction false} SelectsAlike(h: seq<Forecast>, h': seq<Forecast>, viewer: User, keep: Forecast -> bool)
    requires SameButValues(h, h', viewer)
    requires forall f, f' {:trigger keep(f), keep(f')} :: SameRow(f, f', viewer) ==> keep(f) == keep(f')
    ensures SameButValues(Select(h, keep), Select(h', keep), viewer)
  {
    if h != [] {
      assert SameRow(h[0], h'[0], viewer);
      SelectsAlike(h[1..], h'[1..], viewer, keep);
    }
  }

  /** Changing nothing but the values of the other rows changes nothing a sealed question depends on. */
  lemma ValuesAreInvisible(h: seq<Forecast>, h': seq<Forecast>, viewer: User)
    requires SameButValues(h, h', viewer)
    ensures SameToViewer(h, h', viewer)
  {
    SelectsAlike(h, h', viewer, (f: Forecast) => f.actor == Human);
    SelectsAlike(h, h', viewer, (f: Forecast) => f.actor == House);
    var humans, humans' := Humans(h), Humans(h');
    SelectsAlike(humans, humans', viewer, (f: Forecast) => f.user == Some(viewer));
    SelectsAlike(humans, humans', viewer, (f: Forecast) => f.user != Some(viewer));
    var mine := Mine(h, viewer);
    forall i | 0 <= i < |mine| ensures mine[i].actor == Human && mine[i].user == Some(viewer) {
      Selected(humans, (f: Forecast) => f.user == Some(viewer), mine[i]);
      Selected(h, (f: Forecast) => f.actor == Human, mine[i]);
    }
  }

  lemma NoOthersNoUsers(rows: seq<Forecast>)
    ensures Users(rows) == {} <==> rows == []
  {
    if rows != [] {
      assert rows[0].user in Users(rows);
    }
  }

  lemma SealedEntry(q: Question, h: seq<Forecast>, h': seq<Forecast>, viewer: User, env: Surroundings)
    requires ListsMembers(env) && SameToViewer(h, h', viewer) && Sealed(q, h, viewer)
    ensures Sealed(q, h', viewer) && EntryFor(q, h, viewer, env) == EntryFor(q, h', viewer, env)
  {
    NoOthersNoUsers(Others(h, viewer));
    NoOthersNoUsers(Others(h', viewer));
  }

  /** Two databases that differ only in what is sealed from the viewer. */
  ghost predicate DifferInSealed(questions: seq<Question>, hs: map<QuestionId, seq<Forecast>>,
                                 hs': map<QuestionId, seq<Forecast>>, viewer: User)
  {
    forall i {:trigger questions[i]} :: 0 <= i < |questions| ==>
      var q := questions[i];
      if Sealed(q, HistoryOf(hs, q.id), viewer) then SameToViewer(HistoryOf(hs, q.id), HistoryOf(hs', q.id), viewer)
      else HistoryOf(hs, q.id) == HistoryOf(hs', q.id)
  }

  /** The whole response is the same: no sealed number reaches the viewer. */
  lemma {:induction false} SealedNumbersDoNotShow(questions: seq<Question>, hs: map<QuestionId, seq<Forecast>>,
                                                  hs': map<QuestionId, seq<Forecast>>, viewer: User, env: Surroundings)
    requires ListsMembers(env) && DifferInSealed(questions, hs, hs', viewer)
    ensures Card(questions, hs, viewer, env) == Card(questions, hs', viewer, env)
  {
    if questions != [] {
      var init, q := questions[..|questions| - 1], questions[|questions| - 1];
      assert DifferInSealed(init, hs, hs', viewer) by {
        forall i | 0 <= i < |init| ensures init[i] == questions[i] {}
      }
      SealedNumbersDoNotShow(init, hs, hs', viewer, env);
      if Sealed(q, HistoryOf(hs, q.id), viewer) {
        SealedEntry(q, HistoryOf(hs, q.id), HistoryOf(hs', q.id), viewer, env);
      }
    }
  }

  lemma SelectOne(f: Forecast, keep: Forecast -> bool)
    ensures Select([f], keep) == if keep(f) then [f] else []
  {
    assert Select([f][1..], keep) == [];
  }

  /** One row by somebody else. */
  lemma LoneOther(f: Forecast, viewer: User)
    requires f.actor == Human && f.user != Some(viewer)
    ensures Humans([f]) == [f] && Mine([f], viewer) == []
  {
    SelectOne(f, (g: Forecast) => g.actor == Human);
    SelectOne(f, (g: Forecast) => g.user == Some(viewer));
  }

  /** While a card is not open, all that two histories alike to the viewer can tell apart is the score. */
  lemma ScoresShowExactly(q: Question, h: seq<Forecast>, h': seq<Forecast>, viewer: User, env: Surroundings)
    requires ListsMembers(env) && SameToViewer(h, h', viewer) && !Revealed(h, viewer)
    ensures EntryFor(q, h, viewer, env) == EntryFor(q, h', viewer, env)
            <==> (Scored(q) ==> env.score(q, Humans(h), HouseRows(h)) == env.score(q, Humans(h'), HouseRows(h')))
  {
    NoOthersNoUsers(Others(h, viewer));
    NoOthersNoUsers(Others(h', viewer));
  }

  // ---------------------------------------------------------------- the score

  const DAY := 86_400

  /** The first and last day that can earn a score: from the question's creation to its close or its verdict. */
  function Window(q: Question): Option<(int, int)> {
    var start := q.created / DAY;
    var end := if q.deadline.None? then q.settledAt
               else if q.settledAt.None? || q.deadline.value / DAY <= q.settledAt.value / DAY then q.deadline
               else q.settledAt;
    if end.None? || end.value / DAY < start then None else Some((start, end.value / DAY))
  }

  /** The row that stands on a day: the last one entered on the latest day so far. */
  function StandingRow(rows: seq<Forecast>, day: int): Option<Forecast> {
    if rows == [] then None
    else
      var before, last := StandingRow(rows[..|rows| - 1], day), rows[|rows| - 1];
      if last.recorded / DAY <= day && (before.Some? ==> before.value.recorded / DAY <= last.recorded / DAY)
      then Some(last)
      else before
  }

  function SquaredError(confidence: real, verdict: Verdict): real {
    var miss := confidence - if verdict == Correct then 1.0 else 0.0;
    miss * miss
  }

  /** The errors of the days from start to end on which a row stands, added up, and the number of those days. */
  function DailyErrors(rows: seq<Forecast>, start: int, end: int, verdict: Verdict): (real, nat)
    decreases end - start
  {
    if end < start then (0.0, 0)
    else
      var before, row := DailyErrors(rows, start, end - 1, verdict), StandingRow(rows, end);
      if row.None? then before else (before.0 + SquaredError(row.value.confidence, verdict), before.1 + 1)
  }

  /** One forecaster's time-weighted Brier score, if anything of theirs can be scored. */
  function Brier(q: Question, rows: seq<Forecast>): Option<real> {
    if !Scored(q) || Window(q).None? then None
    else
      var w := Window(q).value;
      var total := DailyErrors(rows, w.0, w.1, q.verdict.value);
      if total.1 == 0 then None else Some(total.0 / total.1 as real)
  }

  function PeopleBriers(q: Question, humans: seq<Forecast>, listed: seq<Option<User>>): seq<real> {
    if listed == [] then []
    else
      var rest, mine := PeopleBriers(q, humans, listed[1..]), Brier(q, By(humans, listed[0]));
      if mine.None? then rest else [mine.value] + rest
  }

  /** The Brier scores of a sheet: the people's in listing order, then the house's. */
  function Briers(q: Question, humans: seq<Forecast>, house: seq<Forecast>, listed: seq<Option<User>>): seq<real> {
    var people, house := PeopleBriers(q, humans, listed), Brier(q, house);
    if house.None? then people else people + [house.value]
  }

  /** A sheet shows the time-weighted Brier scores, whatever else it shows, and is empty where there is no window. */
  ghost predicate ScoresByBrier(env: Surroundings, column: ScoreSheet -> seq<real>) {
    && (forall q, humans, house {:trigger env.score(q, humans, house)} :: Scored(q) ==>
          column(env.score(q, humans, house)) == Briers(q, humans, house, env.list(Users(humans))))
    && (forall q, humans, house {:trigger env.score(q, humans, house)} :: Scored(q) && Window(q).None? ==>
          env.score(q, humans, house) == [])
  }

  lemma {:induction false} NoWindowNoBriers(q: Question, humans: seq<Forecast>, listed: seq<Option<User>>)
    requires Window(q).None?
    ensures PeopleBriers(q, humans, listed) == []
  {
    if listed != [] { NoWindowNoBriers(q, humans, listed[1..]); }
  }

  ghost function Listing(s: set<Option<User>>): (listed: seq<Option<User>>)
    ensures forall u :: u in listed <==> u in s
  {
    if s == {} then []
    else
      var u :| u in s;
      [u] + Listing(s - {u})
  }

  /** Such a rule exists. */
  lemma BrierRuleExists() returns (env: Surroundings, column: ScoreSheet -> seq<real>)
    ensures ListsMembers(env) && ScoresByBrier(env, column)
  {
    column := (sheet: ScoreSheet) => sheet;
    env := Surroundings((q: Question, humans: seq<Forecast>, house: seq<Forecast>) =>
                          Briers(q, humans, house, Listing(Users(humans))),
                        (x: real) => x, (s: set<Option<User>>) => Listing(s));
    forall q, humans: seq<Forecast>, house: seq<Forecast> | Window(q).None?
      ensures Briers(q, humans, house, Listing(Users(humans))) == []
    {
      NoWindowNoBriers(q, humans, Listing(Users(humans)));
    }
  }

  /** The same error on each of some days, added up. */
  function Repeated(e: real, days: nat): real {
    if days == 0 then 0.0 else Repeated(e, days - 1) + e
  }

  lemma {:induction false} MeanOfRepeated(e: real, days: nat)
    requires days > 0
    ensures Repeated(e, days) / days as real == e
  {
    if days > 1 { MeanOfRepeated(e, days - 1); }
  }

  lemma {:induction false} ConstantErrors(f: Forecast, start: int, days: nat, verdict: Verdict)
    requires f.recorded / DAY <= start
    ensures DailyErrors([f], start, start + days - 1, verdict)
            == (Repeated(SquaredError(f.confidence, verdict), days), days)
  {
    if days > 0 {
      ConstantErrors(f, start, days - 1, verdict);
      assert [f][..0] == [] && StandingRow([f], start + days - 1) == Some(f);
    }
  }

  /** A single forecast made when the question was opened scores its squared error. */
  lemma OneForecastScores(q: Question, f: Forecast)
    requires Scored(q) && Window(q).Some? && f.recorded == q.created
    ensures Brier(q, [f]) == Some(SquaredError(f.confidence, q.verdict.value))
  {
    var w := Window(q).value;
    ConstantErrors(f, w.0, w.1 - w.0 + 1, q.verdict.value);
    MeanOfRepeated(SquaredError(f.confidence, q.verdict.value), w.1 - w.0 + 1);
  }

  lemma {:induction false} LoneBriers(q: Question, f: Forecast, listed: seq<Option<User>>)
    requires Scored(q) && Window(q).Some? && f.recorded == q.created && listed != []
    requires forall u <- listed :: u == f.user
    ensures PeopleBriers(q, [f], listed) != []
    ensures PeopleBriers(q, [f], listed)[0] == SquaredError(f.confidence, q.verdict.value)
  {
    SelectOne(f, (g: Forecast) => g.user == f.user);
    assert By([f], f.user) == [f];
    assert listed[0] in listed;
    OneForecastScores(q, f);
  }

  /** The first score on the sheet of a lone forecast. */
  lemma LoneScore(q: Question, f: Forecast, house: seq<Forecast>, env: Surroundings, column: ScoreSheet -> seq<real>)
    requires ListsMembers(env) && ScoresByBrier(env, column)
    requires Scored(q) && Window(q).Some? && f.recorded == q.created
    ensures var scores := column(env.score(q, [f], house));
            scores != [] && scores[0] == SquaredError(f.confidence, q.verdict.value)
  {
    var listed := env.list(Users([f]));
    assert f in [f] && f.user in listed;
    LoneBriers(q, f, listed);
  }

  /** A settled question with a window shows its score to a member who never forecast: its numbers are not sealed. */
  lemma ScoresUnseal(q: Question, env: Surroundings, column: ScoreSheet -> seq<real>)
    returns (h: seq<Forecast>, h': seq<Forecast>)
    requires ListsMembers(env) && ScoresByBrier(env, column) && Scored(q) && Window(q).Some?
    ensures SameButValues(h, h', 0) && !Revealed(h, 0) && !Revealed(h', 0)
    ensures EntryFor(q, h, 0, env) != EntryFor(q, h', 0, env)
  {
    var f := Forecast(Some(1), Human, 0.2, None, q.created, None);
    var f' := f.(confidence := 0.9);
    h, h' := [f], [f'];
    LoneOther(f, 0);
    LoneOther(f', 0);
    ValuesAreInvisible(h, h', 0);
    ScoresShowExactly(q, h, h', 0, env);
    LoneScore(q, f, HouseRows(h), env, column);
    LoneScore(q, f', HouseRows(h'), env, column);
  }

  /** The seal holds for a question: what the viewer may not see never changes its entry. */
  ghost predicate Tight(q: Question, env: Surroundings)
    requires ListsMembers(env)
  {
    forall h, h', viewer {:trigger SameToViewer(h, h', viewer)} ::
      SameToViewer(h, h', viewer) && !Revealed(h, viewer)
      ==> EntryFor(q, h, viewer, env) == EntryFor(q, h', viewer, env)
  }

  /** Until a card is open its numbers stay sealed exactly if the question is not scored, or no day of it can be. */
  lemma SealHoldsExactly(q: Question, env: Surroundings, column: ScoreSheet -> seq<real>)
    requires ListsMembers(env) && ScoresByBrier(env, column)
    ensures Tight(q, env) <==> !Scored(q) || Window(q).None?
  {
    if !Scored(q) || Window(q).None? {
      forall h, h', viewer | SameToViewer(h, h', viewer) && !Revealed(h, viewer)
        ensures EntryFor(q, h, viewer, env) == EntryFor(q, h', viewer, env)
      {
        ScoresShowExactly(q, h, h', viewer, env);
      }
    } else {
      var h, h' := ScoresUnseal(q, env, column);
      ValuesAreInvisible(h, h', 0);
    }
  }

  // ---------------------------------------------------------------- revealing

  /** The people who have forecast; the house is not one of them. */
  function Committed(history: seq<Forecast>): set<Option<User>> {
    set f | f in history && f.actor == Human :: f.user
  }

  lemma MineAndOthers(history: seq<Forecast>, viewer: User)
    ensures Mine(history, viewer) != [] <==> Some(viewer) in Committed(history)
    ensures Users(Others(history, viewer)) == Committed(history) - {Some(viewer)}
  {
    var humans := Humans(history);
    forall f ensures f in humans <==> f in history && f.actor == Human {
      Selected(history, (g: Forecast) => g.actor == Human, f);
    }
    forall f ensures f in Mine(history, viewer) <==> f in humans && f.user == Some(viewer) {
      Selected(humans, (g: Forecast) => g.user == Some(viewer), f);
    }
    forall f ensures f in Others(history, viewer) <==> f in humans && f.user != Some(viewer) {
      Selected(humans, (g: Forecast) => g.user != Some(viewer), f);
    }
    if Mine(history, viewer) != [] {
      assert Mine(history, viewer)[0] in Mine(history, viewer);
    }
  }

  /** A card is opened to those who have forecast, once two have, whatever the house does. */
  lemma RevealedExactly(history: seq<Forecast>, viewer: User)
    ensures Revealed(history, viewer) <==> Some(viewer) in Committed(history) && |Committed(history)| >= 2
  {
    MineAndOthers(history, viewer);
    var all, me := Committed(history), {Some(viewer)};
    if Some(viewer) in all {
      assert all == (all - me) + me;
      assert |all| == |all - me| + 1;
    }
  }

  /** Between two people the seal breaks for both at once. */
  lemma BothOrNeither(history: seq<Forecast>, a: User, b: User)
    requires a != b && Committed(history) <= {Some(a), Some(b)}
    ensures Revealed(history, a) <==> Revealed(history, b)
  {
    RevealedExactly(history, a);
    RevealedExactly(history, b);
    if |Committed(history)| >= 2 {
      TwoOfTwo(Committed(history), Some(a), Some(b));
    }
  }

  lemma TwoOfTwo<T>(s: set<T>, x: T, y: T)
    requires s <= {x, y} && |s| >= 2
    ensures x in s && y in s
  {
    if x !in s {
      SubsetIsSmaller(s, {y});
    }
    if y !in s {
      SubsetIsSmaller(s, {x});
    }
  }

  lemma {:induction false} SubsetIsSmaller<T>(s: set<T>, t: set<T>)
    requires s <= t
    ensures |s| <= |t|
  {
    assert t == s + (t - s);
    assert |t| == |s| + |t - s|;
  }

  // ---------------------------------------------------------------- the steps that change what a card reads

  datatype Step =
    | RecordForecast(user: User, confidence: real, reasoning: Option<string>, peer: Option<real>, now: int)
    | RecordHouse(confidence: real, reasoning: Option<string>, now: int)
    | Bin
    | Resolve(verdict: Verdict, now: int)

  datatype Standing = Standing(question: Question, history: seq<Forecast>)

  predicate Closed(q: Question, now: int) {
    q.deadline.Some? && now > q.deadline.value
  }

  function Clamped(x: real): real {
    if x < 0.0 then 0.0 else if x > 1.0 then 1.0 else x
  }

  function StatusFor(v: Verdict): Status {
    if v == Void then Voided else Settled
  }

  /** What a step leaves; a step that is refused leaves everything. */
  function Apply(r: Standing, step: Step): Standing {
    match step
    case RecordForecast(u, c, why, p, now) =>
      if r.question.status == Binned || Closed(r.question, now) || r.question.status != Active then r
      else r.(history := r.history + [Forecast(Some(u), Human, c, p, now, why)])
    case RecordHouse(c, why, now) => r.(history := r.history + [Forecast(None, House, Clamped(c), None, now, why)])
    case Bin => r.(question := r.question.(status := Binned))
    case Resolve(v, now) =>
      if r.question.status == Binned || r.question.status != Active then r
      else r.(question := r.question.(status := StatusFor(v), verdict := Some(v), settledAt := Some(now)))
  }

  function Run(r: Standing, steps: seq<Step>): Standing {
    if steps == [] then r else Apply(Run(r, steps[..|steps| - 1]), steps[|steps| - 1])
  }

  datatype Refusal = QuestionBinned | QuestionClosed | NotActive | AlreadySettled

  class RoundQuestion {
    var question: Question
    var history: seq<Forecast>

    ghost function State(): Standing
      reads this
    {
      Standing(question, history)
    }

    constructor (q: Question)
      ensures State() == Standing(q, [])
    {
      question, history := q, [];
    }

    method RecordForecast(user: User, confidence: real, reasoning: Option<string>, peer: Option<real>, now: int)
      returns (r: Result<(), Refusal>)
      modifies this
      ensures State() == Apply(old(State()), Step.RecordForecast(user, confidence, reasoning, peer, now))
      ensures r.Ok? <==> old(question.status) == Active
                         && (old(question.deadline).None? || now <= old(question.deadline).value)
      ensures r == Err(QuestionBinned) <==> old(question.status) == Binned
    {
      if question.status == Binned {
        return Err(QuestionBinned);
      }
      if question.deadline.Some? && now > question.deadline.value {
        return Err(QuestionClosed);
      }
      if question.status != Active {
        return Err(NotActive);
      }
      history := history + [Forecast(Some(user), Human, confidence, peer, now, reasoning)];
      return Ok(());
    }

    method RecordHouseForecast(confidence: real, reasoning: Option<string>, now: int)
      modifies this
      ensures State() == Apply(old(State()), RecordHouse(confidence, reasoning, now))
    {
      history := history + [Forecast(None, House, Clamped(confidence), None, now, reasoning)];
    }

    method BinQuestion()
      modifies this
      ensures State() == Apply(old(State()), Bin)
    {
      question := question.(status := Binned);
    }

    method ResolveQuestion(verdict: Verdict, now: int) returns (r: Result<(), Refusal>)
      modifies this
      ensures State() == Apply(old(State()), Resolve(verdict, now))
      ensures r.Ok? <==> old(question.status) == Active
      ensures r == Err(QuestionBinned) <==> old(question.status) == Binned
    {
      if question.status == Binned {
        return Err(QuestionBinned);
      }
      if question.status != Active {
        return Err(AlreadySettled);
      }
      question := question.(status := StatusFor(verdict), verdict := Some(verdict), settledAt := Some(now));
      return Ok(());
    }
  }

  // ---------------------------------------------------------------- along a run

  /** What is revealed stays revealed. */
  lemma {:induction false} RevealedForever(r: Standing, steps: seq<Step>, viewer: User)
    requires Revealed(r.history, viewer)
    ensures Revealed(Run(r, steps).history, viewer)
  {
    if steps != [] {
      var before, step := Run(r, steps[..|steps| - 1]), steps[|steps| - 1];
      RevealedForever(r, steps[..|steps| - 1], viewer);
      RevealedExactly(before.history, viewer);
      RevealedExactly(Apply(before, step).history, viewer);
      SubsetIsSmaller(Committed(before.history), Committed(Apply(before, step).history));
    }
  }

  /** A settled question keeps its verdict, and takes no more forecasts from people. */
  lemma {:induction false} SettledIsFinal(r: Standing, steps: seq<Step>)
    requires r.question.status != Active
    ensures var after := Run(r, steps);
            && after.question.status != Active
            && after.question.verdict == r.question.verdict && after.question.settledAt == r.question.settledAt
            && Humans(after.history) == Humans(r.history)
            && (r.question.status == Binned ==> after.question.status == Binned)
  {
    if steps != [] {
      var before, step := Run(r, steps[..|steps| - 1]), steps[|steps| - 1];
      SettledIsFinal(r, steps[..|steps| - 1]);
      if step.RecordHouse? {
        var f := Forecast(None, House, Clamped(step.confidence), None, step.now, step.reasoning);
        SelectAppend(before.history, f, (g: Forecast) => g.actor == Human);
      }
    }
  }

  lemma {:induction false} SelectAppend(history: seq<Forecast>, f: Forecast, keep: Forecast -> bool)
    ensures Select(history + [f], keep) == if keep(f) then Select(history, keep) + [f] else Select(history, keep)
  {
    if history == [] {
      assert history + [f] == [f];
    } else {
      SelectAppend(history[1..], f, keep);
      assert (history + [f])[1..] == history[1..] + [f];
    }
  }

  /**
   * The promise that a binned question is never scored holds from the bin on exactly if the question had not been
   * settled with a scored verdict before: the bin does not look.
   */
  lemma {:induction false} BinnedIsUnscoredExactly(r: Standing, steps: seq<Step>)
    ensures var after := Run(Apply(r, Bin), steps);
            after.question.status == Binned && (Scored(after.question) <==> Scored(r.question))
  {
    SettledIsFinal(Apply(r, Bin), steps);
  }

  /** A fresh question that is settled and then binned is scored all the same. */
  lemma BinAfterSettling(q: Question)
    requires q.status == Active
    ensures var after := Run(Standing(q, []), [Resolve(Correct, 0), Bin]);
            after.question.status == Binned && Scored(after.question)
  {
    var steps := [Resolve(Correct, 0), Bin];
    assert steps[..1] == [Resolve(Correct, 0)] && steps[..1][..0] == [];
    assert Run(Standing(q, []), steps[..1]) == Apply(Standing(q, []), Resolve(Correct, 0));
  }

  // ---------------------------------------------------------------- the card in fields

  /** A row that a person wrote as this user. */
  predicate WrittenBy(f: Forecast, user: Option<User>) { f.actor == Human && f.user == user }

  predicate WrittenByOther(f: Forecast, viewer: User) { f.actor == Human && f.user != Some(viewer) }

  ghost predicate LatestOf(history: seq<Forecast>, i: int, keep: Forecast -> bool) {
    0 <= i < |history| && keep(history[i]) && forall j | i < j < |history| :: !keep(history[j])
  }

  /** How many rows of the history there are of a kind. */
  ghost function Places(history: seq<Forecast>, keep: Forecast -> bool): set<int> {
    set i | 0 <= i < |history| && keep(history[i])
  }

  lemma {:induction false} SelectLast(history: seq<Forecast>, keep: Forecast -> bool)
    requires history != []
    ensures var init, last := history[..|history| - 1], history[|history| - 1];
            Select(history, keep) == Select(init, keep) + if keep(last) then [last] else []
  {
    if |history| > 1 {
      SelectLast(history[1..], keep);
      assert history[1..][..|history| - 2] == history[..|history| - 1][1..];
    }
  }

  lemma {:induction false} SelectCounts(history: seq<Forecast>, keep: Forecast -> bool)
    ensures |Select(history, keep)| == |Places(history, keep)|
  {
    if history == [] {
      assert Places(history, keep) == {};
    } else {
      var init, n := history[..|history| - 1], |history| - 1;
      SelectLast(history, keep);
      SelectCounts(init, keep);
      assert Places(history, keep) == Places(init, keep) + if keep(history[n]) then {n} else {};
    }
  }

  lemma LastOfSelect(history: seq<Forecast>, keep: Forecast -> bool) returns (i: nat)
    requires Select(history, keep) != []
    ensures LatestOf(history, i, keep) && history[i] == Select(history, keep)[|Select(history, keep)| - 1]
  {
    i := LastSelected(history, keep);
  }

  lemma NoneSelected(history: seq<Forecast>, keep: Forecast -> bool)
    ensures Select(history, keep) == [] <==> forall f | f in history :: !keep(f)
  {
    forall f ensures f in Select(history, keep) <==> f in history && keep(f) {
      Selected(history, keep, f);
    }
    if Select(history, keep) != [] { assert Select(history, keep)[0] in history; }
  }

  lemma OwnAndOthersRows(history: seq<Forecast>, viewer: User)
    ensures Mine(history, viewer) == Select(history, (f: Forecast) => WrittenBy(f, Some(viewer)))
    ensures Others(history, viewer) == Select(history, (f: Forecast) => WrittenByOther(f, viewer))
  {
    SelectTwice(history, (f: Forecast) => f.actor == Human, (f: Forecast) => f.user == Some(viewer),
                (f: Forecast) => WrittenBy(f, Some(viewer)));
    SelectTwice(history, (f: Forecast) => f.actor == Human, (f: Forecast) => f.user != Some(viewer),
                (f: Forecast) => WrittenByOther(f, viewer));
  }

  /** What a card says of the question and of who has forecast. */
  lemma FlagsInFields(q: Question, history: seq<Forecast>, viewer: User, env: Surroundings)
    requires ListsMembers(env)
    ensures var e := EntryFor(q, history, viewer, env);
            var some := exists f :: f in history && WrittenBy(f, Some(viewer));
            var other := exists f :: f in history && WrittenByOther(f, viewer);
            && e.id == q.id && e.claim == q.claim && e.closes == q.deadline && e.status == q.status
            && e.verdict == q.verdict && (e.revealed <==> some && other) && (e.waitingOnOther <==> some && !other)
            && (e.scores.Some? <==> q.verdict == Some(Correct) || q.verdict == Some(Incorrect))
  {
    OwnAndOthersRows(history, viewer);
    NoneSelected(history, (f: Forecast) => WrittenBy(f, Some(viewer)));
    NoneSelected(history, (f: Forecast) => WrittenByOther(f, viewer));
    NoUsersExactly(Others(history, viewer));
  }

  lemma OwnRowsInFields(history: seq<Forecast>, viewer: User)
    ensures var own, mine := (f: Forecast) => WrittenBy(f, Some(viewer)), Mine(history, viewer);
            && |mine| == |Places(history, own)|
            && (mine == [] <==> forall f | f in history :: !own(f))
            && (mine != [] ==> exists i :: LatestOf(history, i, own) && history[i] == mine[|mine| - 1])
  {
    var own := (f: Forecast) => WrittenBy(f, Some(viewer));
    OwnAndOthersRows(history, viewer);
    NoneSelected(history, own);
    SelectCounts(history, own);
    if Mine(history, viewer) != [] { var i := LastOfSelect(history, own); }
  }

  /** What it says of the viewer's own rows: the latest one, and how many there are. */
  lemma OwnPartInFields(q: Question, history: seq<Forecast>, viewer: User, env: Surroundings)
    requires ListsMembers(env)
    ensures var e, own := EntryFor(q, history, viewer, env), (f: Forecast) => WrittenBy(f, Some(viewer));
            && e.myRevisions == |Places(history, own)|
            && if forall f | f in history :: !own(f) then e.myForecast == None && e.myPeerForecast == None
               else exists i :: LatestOf(history, i, own) && e.myForecast == Some(history[i].confidence)
                                && e.myPeerForecast == history[i].peer
  {
    OwnRowsInFields(history, viewer);
    if Mine(history, viewer) != [] {
      var i :| LatestOf(history, i, (f: Forecast) => WrittenBy(f, Some(viewer)))
               && history[i] == Mine(history, viewer)[|Mine(history, viewer)| - 1];
    }
  }

  lemma NoUsersExactly(rows: seq<Forecast>)
    ensures Users(rows) == {} <==> rows == []
  {
    if rows != [] { assert rows[0].user in Users(rows); }
  }

  /** What an open card says of the house: its latest row. A card that is not open says only whether there is one. */
  lemma HousePartInFields(q: Question, history: seq<Forecast>, viewer: User, env: Surroundings)
    requires ListsMembers(env)
    ensures var e, house := EntryFor(q, history, viewer, env), (f: Forecast) => f.actor == House;
            && (e.houseCommitted <==> exists f :: f in history && f.actor == House)
            && (e.house.Some? <==> e.revealed && e.houseCommitted)
            && (e.house.Some? ==>
                  && e.house.value.revisions == |Places(history, house)|
                  && exists i :: LatestOf(history, i, house) && e.house.value.forecast == history[i].confidence
                                 && e.house.value.because == history[i].reasoning)
  {
    var house := (f: Forecast) => f.actor == House;
    NoneSelected(history, house);
    SelectCounts(history, house);
    if HouseRows(history) != [] { var i := LastOfSelect(history, house); }
  }

  /** What a card says of the others: their number while it is sealed, and each one's latest row once it is open. */
  lemma OthersPartInFields(q: Question, history: seq<Forecast>, viewer: User, env: Surroundings)
    requires ListsMembers(env)
    ensures var e := EntryFor(q, history, viewer, env);
            var users := set f | f in history && WrittenByOther(f, viewer) :: f.user;
            && (e.others.Some? <==> e.revealed) && e.othersCommitted == (if e.revealed then None else Some(|users|))
            && (e.others.Some? ==> forall v | v in e.others.value ::
                  var theirs := (f: Forecast) => WrittenBy(f, v.user);
                  && v.user in users && v.revisions == |Places(history, theirs)|
                  && exists i :: LatestOf(history, i, theirs) && v.forecast == history[i].confidence)
  {
    var others := Others(history, viewer);
    var listed := env.list(Users(others));
    OwnAndOthersRows(history, viewer);
    forall f ensures f in others <==> f in history && WrittenByOther(f, viewer) {
      Selected(history, (g: Forecast) => WrittenByOther(g, viewer), f);
    }
    var users := set f | f in history && WrittenByOther(f, viewer) :: f.user;
    assert Users(others) == users;
    if Revealed(history, viewer) {
      var views := OtherViews(others, listed);
      OneViewEach(others, listed);
      forall v | v in views
        ensures var theirs := (f: Forecast) => WrittenBy(f, v.user);
                && v.user in users && v.revisions == |Places(history, theirs)|
                && exists i :: LatestOf(history, i, theirs) && v.forecast == history[i].confidence
      {
        var n :| 0 <= n < |views| && views[n] == v;
        assert listed[n] in listed;
        ViewsAre(others, listed, n);
        OtherUserDiffers(history, viewer, listed[n]);
        ViewInFields(history, viewer, listed[n]);
      }
    }
  }

  lemma {:induction false} OneViewEach(others: seq<Forecast>, listed: seq<Option<User>>)
    requires forall u <- listed :: u in Users(others)
    ensures |OtherViews(others, listed)| == |listed|
  {
    if listed != [] { OneViewEach(others, listed[1..]); }
  }

  lemma ViewInFields(history: seq<Forecast>, viewer: User, user: Option<User>)
    requires user != Some(viewer) && By(Others(history, viewer), user) != []
    ensures var rows, theirs := By(Others(history, viewer), user), (f: Forecast) => WrittenBy(f, user);
            && |rows| == |Places(history, theirs)|
            && exists i :: LatestOf(history, i, theirs) && rows[|rows| - 1].confidence == history[i].confidence
  {
    var theirs := (f: Forecast) => WrittenBy(f, user);
    OtherRowsBy(history, viewer, user);
    SelectTwice(history, (f: Forecast) => f.actor == Human, (f: Forecast) => f.user == user, theirs);
    SelectCounts(history, theirs);
    var i := LastOfSelect(history, theirs);
  }

  /** Between two people, the error of reading the other is the other's latest number less what the viewer guessed. */
  lemma PeerErrorInFields(q: Question, history: seq<Forecast>, viewer: User, env: Surroundings, user: Option<User>)
    requires ListsMembers(env) && user != Some(viewer)
    requires forall f | f in history && WrittenByOther(f, viewer) :: f.user == user
    ensures var e, theirs := EntryFor(q, history, viewer, env), (f: Forecast) => WrittenBy(f, user);
            && (e.peerReadError.Some? <==> e.revealed && e.myPeerForecast.Some?)
            && (e.peerReadError.Some? ==>
                  exists i :: LatestOf(history, i, theirs)
                              && e.peerReadError == Some(env.round(history[i].confidence - e.myPeerForecast.value)))
  {
    if Revealed(history, viewer) {
      var others := Others(history, viewer);
      var listed := env.list(Users(others));
      var u :| u in Users(others);
      assert u in listed && listed[0] in listed;
      OwnAndOthersRows(history, viewer);
      forall f ensures f in others <==> f in history && WrittenByOther(f, viewer) {
        Selected(history, (g: Forecast) => WrittenByOther(g, viewer), f);
      }
      assert listed[0] == user;
      ViewsAre(others, listed, 0);
      ViewInFields(history, viewer, user);
    }
  }

  /** The card has the entry of each question at its place. */
  lemma {:induction false} CardAt(questions: seq<Question>, histories: map<QuestionId, seq<Forecast>>, viewer: User,
                                  env: Surroundings, i: nat)
    requires ListsMembers(env) && i < |questions|
    ensures var card := Card(questions, histories, viewer, env);
            |card| == |questions| && card[i].id == questions[i].id
            && card[i] == EntryFor(questions[i],
                                   if questions[i].id in histories then histories[questions[i].id] else [],
                                   viewer, env)
  {
    var init := questions[..|questions| - 1];
    if init == [] {
      assert Card(init, histories, viewer, env) == [];
    } else if i < |init| {
      CardAt(init, histories, viewer, env, i);
    } else {
      CardAt(init, histories, viewer, env, 0);
    }
  }

  /** Everyone but the viewer is listed, in the order of the members. */
  lemma {:induction false} PeersAreTheOthers(members: seq<Member>, viewer: User)
    ensures forall m :: m in Peers(members, viewer) <==> m in members && m.user != viewer
    ensures members != [] ==>
              var init, last := members[..|members| - 1], members[|members| - 1];
              Peers(members, viewer) == Peers(init, viewer) + if last.user != viewer then [last] else []
  {
    if |members| > 0 {
      PeersAreTheOthers(members[1..], viewer);
      assert members == [members[0]] + members[1..];
      if |members| > 1 {
        assert members[1..][..|members| - 2] == members[..|members| - 1][1..];
      }
    }
  }

  // ---------------------------------------------------------------- scores and steps in fields

  /** The distance to certainty, squared. */
  lemma SquaredErrorInNumbers(confidence: real)
    ensures SquaredError(confidence, Correct) == (1.0 - confidence) * (1.0 - confidence)
    ensures SquaredError(confidence, Incorrect) == confidence * confidence
  {
    assert (confidence - 1.0) * (confidence - 1.0) == (1.0 - confidence) * (1.0 - confidence);
  }

  /** A window runs from the day of creation to the day of the close or of the verdict, whichever comes first. */
  lemma WindowInFields(q: Question)
    ensures var ends := (if q.deadline.Some? then {q.deadline.value / 86_400} else {})
                        + (if q.settledAt.Some? then {q.settledAt.value / 86_400} else {});
            && (Window(q).Some? <==> ends != {} && forall end | end in ends :: q.created / 86_400 <= end)
            && (Window(q).Some? ==>
                  && Window(q).value.0 == q.created / 86_400 && Window(q).value.1 in ends
                  && forall end | end in ends :: Window(q).value.1 <= end)
  {
    if q.deadline.Some? { assert q.deadline.value / DAY in {q.deadline.value / 86_400}; }
    if q.settledAt.Some? { assert q.settledAt.value / DAY in {q.settledAt.value / 86_400}; }
  }

  /** The row standing on a day is one entered by then, on the latest such day, and of that day's rows the last. */
  lemma {:induction false} StandingRowInFields(rows: seq<Forecast>, day: int) returns (i: nat)
    ensures StandingRow(rows, day).None? <==> forall j | 0 <= j < |rows| :: rows[j].recorded / 86_400 > day
    ensures StandingRow(rows, day).Some? ==>
              i < |rows| && rows[i] == StandingRow(rows, day).value && StandsOn(rows, day, i)
  {
    i := 0;
    if rows != [] {
      var last := |rows| - 1;
      var init := rows[..last];
      i := StandingRowInFields(init, day);
      assert forall j | 0 <= j < last :: rows[j] == init[j];
      if rows[last].recorded / DAY > day {
        if StandingRow(init, day).Some? { StandsStill(rows, day, i); }
      } else if StandingRow(init, day).Some? && rows[last].recorded / DAY < rows[i].recorded / DAY {
        StandsStill(rows, day, i);
      } else {
        LastStands(rows, day);
        i := last;
      }
    }
  }

  lemma LastStands(rows: seq<Forecast>, day: int)
    requires rows != [] && rows[|rows| - 1].recorded / 86_400 <= day
    requires forall j | 0 <= j < |rows| && rows[j].recorded / 86_400 <= day ::
               rows[j].recorded / 86_400 <= rows[|rows| - 1].recorded / 86_400
    ensures StandsOn(rows, day, |rows| - 1)
  {
  }

  lemma StandsStill(rows: seq<Forecast>, day: int, i: nat)
    requires i < |rows| - 1 && StandsOn(rows[..|rows| - 1], day, i)
    requires var last := rows[|rows| - 1].recorded / 86_400; last > day || last < rows[i].recorded / 86_400
    ensures StandsOn(rows, day, i)
  {
    var init := rows[..|rows| - 1];
    assert forall j | 0 <= j < |init| :: rows[j] == init[j];
  }

  ghost predicate StandsOn(rows: seq<Forecast>, day: int, i: int) {
    && 0 <= i < |rows| && rows[i].recorded / 86_400 <= day
    && forall j | 0 <= j < |rows| && rows[j].recorded / 86_400 <= day ::
         rows[j].recorded / 86_400 < rows[i].recorded / 86_400
         || (rows[j].recorded / 86_400 == rows[i].recorded / 86_400 && j <= i)
  }

  /** What each step leaves. */
  lemma StepsInFields(r: Standing, step: Step)
    ensures var t := Apply(r, step);
            match step
            case RecordForecast(u, c, why, p, now) =>
              && t.question == r.question
              && t.history == if r.question.status == Active
                                 && (r.question.deadline.None? || now <= r.question.deadline.value)
                              then r.history + [Forecast(Some(u), Human, c, p, now, why)] else r.history
            case RecordHouse(c, why, now) =>
              && t.question == r.question && |t.history| == |r.history| + 1 && r.history <= t.history
              && var row := t.history[|r.history|];
                 && row.actor == House && row.user == None && row.peer == None && row.recorded == now
                 && row.reasoning == why
                 && 0.0 <= row.confidence <= 1.0
                 && (0.0 <= c <= 1.0 ==> row.confidence == c)
                 && (c < 0.0 ==> row.confidence == 0.0) && (c > 1.0 ==> row.confidence == 1.0)
            case Bin => t.history == r.history && t.question == r.question.(status := Binned)
            case Resolve(v, now) =>
              && t.history == r.history
              && t.question == if r.question.status == Active
                               then r.question.(status := if v == Void then Voided else Settled, verdict := Some(v),
                                                settledAt := Some(now))
                               else r.question
  {
  }
}
