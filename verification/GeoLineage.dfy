/** The append-only geo_scopes table and its human write door. */
module GeoLineage {
  // A row's id is its position; rows are never changed. `now` is the clock of one request; nothing relates
  // the clocks of two requests.

  import opened Common
  import opened RayCast
  import Lineage

  datatype Authority = HumanConfirmed | SourceReported | MachineProposed

  datatype SourceState = Good | Partial | ConfirmedEmpty | Stale | Unavailable | RateLimited | NotConfigured

  datatype Action = Place | Propose | PlaceSignal | Confirm | Reject | Redraw | Supersede | Ratify

  datatype Provenance = Provenance(provider: string, acquisition: string)

  datatype Subject = Subject(entity: string, id: string, part: Option<string>)

  datatype Scope = Scope(
    room: nat, subject: Subject, kind: Kind, geometry: Geometry, title: string, authority: Authority,
    provenance: Provenance, sourceState: SourceState, observed: Option<int>, retrieved: int, expires: Option<int>,
    confirmedBy: Option<nat>, supersedes: Option<nat>, action: Action, note: Option<string>, created: int)

  type Table = seq<Scope>

  // ---- derived state ---------------------------------------------------------------------------

  predicate HasSuccessor(rows: Table, i: nat) {
    exists j :: 0 <= j < |rows| && rows[j].supersedes == Some(i)
  }

  predicate Unexpired(s: Scope, now: int) {
    s.expires.None? || s.expires.value > now
  }

  /** The one rule for a scope that still stands. */
  predicate Live(rows: Table, i: nat, now: int)
    requires i < |rows|
  {
    && Unexpired(rows[i], now)
    && rows[i].sourceState != ConfirmedEmpty
    && rows[i].action != Reject && rows[i].action != Supersede
    && !HasSuccessor(rows, i)
  }

  datatype ReviewState = Accepted | Proposed | Rejected | Superseded

  function StateOf(rows: Table, i: nat): ReviewState
    requires i < |rows|
  {
    if HasSuccessor(rows, i) then Superseded
    else if rows[i].action == Reject || rows[i].action == Supersede || rows[i].sourceState == ConfirmedEmpty
    then Rejected
    else if rows[i].authority == MachineProposed then Proposed
    else Accepted
  }

  // ---- the door ---------------------------------------------------------------------------------

  datatype DoorError =
    | BadAction | NotFound | NotLive | NotProposed | NotAccepted | NotOriginal | NoGeometry
    | ConfirmerMismatch | UnknownEntity | WrongAcquisition | BadGeometry | PlacedTwice | Unresolved

  const ENTITIES := {"rooms", "messages", "reading_items", "memories", "field_marks"}

  /** The part of a word before its first colon. */
  function Head(word: string): string {
    if word == "" || word[0] == ':' then "" else [word[0]] + Head(word[1..])
  }

  /** The checks of the one insert path. */
  function InsertError(s: Scope): Option<DoorError> {
    if (s.authority == HumanConfirmed) != s.confirmedBy.Some? then Some(ConfirmerMismatch)
    else if s.subject.entity !in ENTITIES then Some(UnknownEntity)
    else if Head(s.provenance.acquisition) !in {"human", "adapter", "llm"} then Some(WrongAcquisition)
    else if s.authority == MachineProposed && s.provenance.acquisition != "llm" then Some(WrongAcquisition)
    else if !WellFormed(s.kind, s.geometry) then Some(BadGeometry)
    else None
  }

  /** What a review request carries besides its action. */
  datatype Revision = Revision(user: nat, title: Option<string>, geometry: Option<Geometry>, note: Option<string>)

  function ReviewError(rows: Table, room: nat, i: nat, action: Action, rev: Revision, now: int): Option<DoorError> {
    if action !in {Confirm, Reject, Redraw, Supersede, Ratify} then Some(BadAction)
    else if i >= |rows| || rows[i].room != room then Some(NotFound)
    else if !Live(rows, i, now) then Some(NotLive)
    else if action in {Confirm, Reject} && rows[i].authority != MachineProposed then Some(NotProposed)
    else if action == Ratify && StateOf(rows, i) != Accepted then Some(NotAccepted)
    else if action == Ratify && (rows[i].supersedes.Some? || rows[i].action !in {Place, PlaceSignal})
    then Some(NotOriginal)
    else if action in {Redraw, Supersede} && StateOf(rows, i) != Accepted then Some(NotAccepted)
    else if action == Redraw && rev.geometry.None? then Some(NoGeometry)
    else if action == Redraw && !WellFormed(rows[i].kind, rev.geometry.value) then Some(BadGeometry)
    else None
  }

  /** The row that a review appends behind its target. */
  function Successor(target: Scope, i: nat, action: Action, rev: Revision, now: int): Scope
    requires action == Redraw ==> rev.geometry.Some?
  {
    target.(geometry := if action == Redraw then rev.geometry.value else target.geometry,
            title := if action == Redraw then (if rev.title.Some? then rev.title.value else "") else target.title,
            authority := HumanConfirmed,
            expires := if action == Confirm then None else target.expires,
            confirmedBy := Some(rev.user), supersedes := Some(i), action := action, note := rev.note, created := now)
  }

  function Reviewed(rows: Table, room: nat, i: nat, action: Action, rev: Revision, now: int): Table {
    if ReviewError(rows, room, i, action, rev, now).Some? then rows
    else rows + [Successor(rows[i], i, action, rev, now)]
  }

  /** A first row of a lineage, as each of the three doors that start one writes it. */
  predicate Opening(s: Scope) {
    && s.supersedes.None?
    && match s.action
       case Place => s.authority == HumanConfirmed && s.provenance.acquisition == "human"
                     && s.sourceState == Good && s.expires.None?
       case Propose => s.authority == MachineProposed && s.sourceState == Good
       case PlaceSignal => s.authority == SourceReported
                           && s.provenance.acquisition == "adapter:" + s.provenance.provider
       case _ => false
  }

  predicate SamePlacement(a: Scope, b: Scope) {
    a.room == b.room && a.subject == b.subject && a.action == PlaceSignal && b.action == PlaceSignal
  }

  /** Placing a signal again returns the row that is already there. */
  function Opened(rows: Table, s: Scope): Table {
    if !Opening(s) || InsertError(s).Some? then rows
    else if s.action == PlaceSignal && exists j :: 0 <= j < |rows| && SamePlacement(rows[j], s) then rows
    else rows + [s]
  }

  /** The door accepts a geometry that is stored already just if it is well-formed, and leaves it as it is. */
  lemma PassesAgain(kind: Kind, g: Geometry, clean: Result<Geometry, GeometryError>)
    requires clean.Ok? ==> Writes(ToJson(g), clean.value) && WellFormed(kind, clean.value)
    requires clean.Err? ==> forall h :: Writes(ToJson(g), h) ==> !WellFormed(kind, h)
    ensures clean.Ok? <==> WellFormed(kind, g)
    ensures clean.Ok? ==> clean.value == g
  {
    if !g.MultiPolygon? {
      WritesItself(g);
      if clean.Ok? { WritesOne(ToJson(g), clean.value, g); }
    }
  }

  class GeoScopes {
    var rows: Table

    constructor ()
      ensures rows == []
    {
      rows := [];
    }

    method InsertScope(s: Scope) returns (r: Result<nat, DoorError>)
      modifies this
      ensures r == if InsertError(s).Some? then Err(InsertError(s).value) else Ok(|old(rows)|)
      ensures rows == if r.Ok? then old(rows) + [s] else old(rows)
    {
      if (s.authority == HumanConfirmed) != s.confirmedBy.Some? { return Err(ConfirmerMismatch); }
      if s.subject.entity !in ENTITIES { return Err(UnknownEntity); }
      if Head(s.provenance.acquisition) !in {"human", "adapter", "llm"} { return Err(WrongAcquisition); }
      if s.authority == MachineProposed && s.provenance.acquisition != "llm" { return Err(WrongAcquisition); }
      var clean := ValidateGeometry(s.kind, ToJson(s.geometry));
      PassesAgain(s.kind, s.geometry, clean);
      if clean.Err? { return Err(BadGeometry); }
      rows := rows + [s.(geometry := clean.value)];
      return Ok(|rows| - 1);
    }

    /** A person places geometry, or the participant proposes it. `resolves` says whether the subject is
        a row of the room. */
    method Open(s: Scope, resolves: bool) returns (r: Result<nat, DoorError>)
      requires Opening(s) && s.action != PlaceSignal
      modifies this
      ensures rows == if resolves then Opened(old(rows), s) else old(rows)
      ensures r == if !resolves then Err(Unresolved)
                   else if InsertError(s).Some? then Err(InsertError(s).value) else Ok(|old(rows)|)
    {
      if !resolves { return Err(Unresolved); }
      r := InsertScope(s);
    }

    /** The PlaceSignal door: one durable row however often the signal is tapped. */
    method PlaceWorldSignal(s: Scope) returns (r: Result<nat, DoorError>)
      requires Opening(s) && InsertError(s).None? && s.action == PlaceSignal
      requires forall j, k | 0 <= j < k < |rows| :: SamePlacement(rows[j], s) ==> !SamePlacement(rows[k], s)
      modifies this
      ensures rows == Opened(old(rows), s) && r.Ok? && r.value < |rows| && SamePlacement(rows[r.value], s)
    {
      var existing: seq<nat> := [];
      for j := 0 to |rows|
        invariant |existing| <= 1
        invariant existing == [] ==> forall k | 0 <= k < j :: !SamePlacement(rows[k], s)
        invariant existing != [] ==> existing[0] < j && SamePlacement(rows[existing[0]], s)
      {
        if SamePlacement(rows[j], s) {
          existing := existing + [j];
        }
      }
      if |existing| > 1 { return Err(PlacedTwice); }
      if |existing| == 1 { return Ok(existing[0]); }
      r := InsertScope(s);
    }

    /** One review: the target is locked, re-read, checked, and given its successor. */
    method Review(room: nat, i: nat, action: Action, rev: Revision, now: int) returns (r: Result<nat, DoorError>)
      requires forall s | s in rows :: InsertError(s).None?
      modifies this
      ensures rows == Reviewed(old(rows), room, i, action, rev, now)
      ensures r == var e := ReviewError(old(rows), room, i, action, rev, now);
                   if e.Some? then Err(e.value) else Ok(|old(rows)|)
    {
      if action !in {Confirm, Reject, Redraw, Supersede, Ratify} { return Err(BadAction); }
      if i >= |rows| || rows[i].room != room { return Err(NotFound); }
      var target := rows[i];
      if !Live(rows, i, now) { return Err(NotLive); }
      if action in {Confirm, Reject} && target.authority != MachineProposed { return Err(NotProposed); }
      var state := StateOf(rows, i);
      if action == Ratify && state != Accepted { return Err(NotAccepted); }
      if action == Ratify && (target.supersedes.Some? || target.action !in {Place, PlaceSignal}) {
        return Err(NotOriginal);
      }
      if action in {Redraw, Supersede} && state != Accepted { return Err(NotAccepted); }
      if action == Redraw && rev.geometry.None? { return Err(NoGeometry); }
      assert InsertError(target).None?;
      r := InsertScope(Successor(target, i, action, rev, now));
    }
  }

  // ---- whole runs ----------------------------------------------------------------------------------

  datatype Request =
    | Opens(s: Scope)
    | Reviews(room: nat, i: nat, action: Action, rev: Revision, now: int)

  function Step(rows: Table, q: Request): Table {
    match q
    case Opens(s) => Opened(rows, s)
    case Reviews(room, i, action, rev, now) => Reviewed(rows, room, i, action, rev, now)
  }

  function Run(requests: seq<Request>): Table {
    if requests == [] then [] else Step(Run(requests[..|requests| - 1]), requests[|requests| - 1])
  }

  /** A row names an earlier row, or none, as its predecessor. */
  ghost predicate Grounded(rows: Table) {
    forall i | 0 <= i < |rows| :: rows[i].supersedes.Some? ==> rows[i].supersedes.value < i
  }

  /** The actions from the root of the lineage down to i. */
  ghost function WordTo(rows: Table, i: nat): (word: seq<Action>)
    requires Grounded(rows) && i < |rows|
    ensures word != [] && word[|word| - 1] == rows[i].action
  {
    if rows[i].supersedes.None? then [rows[i].action] else WordTo(rows, rows[i].supersedes.value) + [rows[i].action]
  }

  // ---- the language of lineages -----------------------------------------------------------------------

  /** redraw* supersede? */
  predicate Revisions(w: seq<Action>) {
    && (forall k | 0 <= k < |w| - 1 :: w[k] == Redraw)
    && (w != [] ==> w[|w| - 1] in {Redraw, Supersede})
  }

  /** propose (reject | confirm redraw* supersede?)?  or  (place | place_signal) ratify? redraw* supersede? */
  predicate Legal(w: seq<Action>) {
    && w != []
    && if w[0] == Propose then |w| == 1 || w == [Propose, Reject] || (w[1] == Confirm && Revisions(w[2..]))
       else w[0] in {Place, PlaceSignal} && (Revisions(w[1..]) || (w[1] == Ratify && Revisions(w[2..])))
  }

  /** Which action may follow a legal word, by its last letter and its length. */
  predicate MayFollow(last: Action, alone: bool, next: Action) {
    match next
    case Confirm => last == Propose
    case Reject => last == Propose
    case Ratify => alone && last in {Place, PlaceSignal}
    case Redraw => last !in {Propose, Reject, Supersede}
    case Supersede => last !in {Propose, Reject, Supersede}
    case _ => false
  }

  lemma RevisionsExtend(w: seq<Action>, next: Action)
    ensures Revisions(w + [next]) <==> next in {Redraw, Supersede} && Revisions(w) && (w != [] ==> w[|w| - 1] == Redraw)
  {
    var v := w + [next];
    assert forall k | 0 <= k < |w| :: v[k] == w[k];
    if Revisions(v) && w != [] {
      assert v[|w| - 1] == Redraw;
    }
  }

  lemma ProposalExtends(w: seq<Action>, next: Action)
    requires Legal(w) && w[0] == Propose
    ensures Legal(w + [next]) <==> MayFollow(w[|w| - 1], |w| == 1, next)
  {
    var v := w + [next];
    if |w| >= 2 {
      assert v[2..] == w[2..] + [next];
      RevisionsExtend(w[2..], next);
    } else {
      assert v == [w[0], next] && v[2..] == [];
    }
  }

  lemma PlacementExtends(w: seq<Action>, next: Action)
    requires Legal(w) && w[0] != Propose
    ensures Legal(w + [next]) <==> MayFollow(w[|w| - 1], |w| == 1, next)
  {
    var v := w + [next];
    assert v[1..] == w[1..] + [next];
    RevisionsExtend(w[1..], next);
    if |w| >= 2 {
      assert v[2..] == w[2..] + [next];
      RevisionsExtend(w[2..], next);
    } else {
      assert v[2..] == [];
    }
  }

  lemma LegalExtends(w: seq<Action>, next: Action)
    requires Legal(w)
    ensures Legal(w + [next]) <==> MayFollow(w[|w| - 1], |w| == 1, next)
  {
    if w[0] == Propose { ProposalExtends(w, next); } else { PlacementExtends(w, next); }
  }

  // ---- lapsing --------------------------------------------------------------------------------------------

  /** A scope stands while it does not expire or expires later, was not reported empty, was neither rejected nor
      withdrawn, and is not replaced; a review of one that does not stand is refused for that. */
  lemma LiveInFields(rows: Table, i: nat, action: Action, rev: Revision, now: int)
    requires i < |rows| && action in {Confirm, Reject, Redraw, Supersede, Ratify}
    ensures var s := rows[i];
            var stands := && (s.expires.None? || now < s.expires.value) && s.sourceState != ConfirmedEmpty
                          && s.action != Reject && s.action != Supersede
                          && forall row <- rows :: row.supersedes != Some(i);
            && (Live(rows, i, now) <==> stands)
            && (ReviewError(rows, s.room, i, action, rev, now) == Some(NotLive) <==> !stands)
  {
    if row :| row in rows && row.supersedes == Some(i) {
      var j :| 0 <= j < |rows| && rows[j] == row;
    }
    if j :| 0 <= j < |rows| && rows[j].supersedes == Some(i) {
      assert rows[j] in rows;
    }
  }

  /** A scope that has lapsed by some clock has lapsed by every later one. */
  lemma LapsingIsOneWay(rows: Table, i: nat, now: int, now': int)
    requires i < |rows| && Live(rows, i, now) && now' <= now
    ensures Live(rows, i, now')
  {
  }

  /** From the instant of its expiry on, a scope refuses every review. */
  lemma ExpiredRefusesEverything(rows: Table, i: nat, action: Action, rev: Revision, now: int)
    requires i < |rows| && rows[i].expires.Some? && rows[i].expires.value <= now
    requires action in {Confirm, Reject, Redraw, Supersede, Ratify}
    ensures ReviewError(rows, rows[i].room, i, action, rev, now) == Some(NotLive)
  {
  }

  // ---- what every reachable table satisfies -------------------------------------------------------------

  /** Everything but geometry, title, expiry, authority and authorship is copied forward. */
  predicate Follows(a: Scope, b: Scope) {
    && a.room == b.room && a.subject == b.subject && a.kind == b.kind && a.provenance == b.provenance
    && a.sourceState == b.sourceState && a.observed == b.observed && a.retrieved == b.retrieved
    && (b.action != Redraw ==> a.geometry == b.geometry && a.title == b.title)
    && (b.action != Confirm ==> a.expires == b.expires)
    && b.authority == HumanConfirmed && b.action in {Confirm, Reject, Redraw, Supersede, Ratify}
  }

  /** The unique index on supersedes_id. */
  ghost predicate OneSuccessor(rows: Table) {
    forall j, k | 0 <= j < k < |rows| :: rows[j].supersedes.Some? ==> rows[j].supersedes != rows[k].supersedes
  }

  ghost predicate OnePlacement(rows: Table) {
    forall j, k | 0 <= j < k < |rows| :: !SamePlacement(rows[j], rows[k])
  }

  ghost predicate RowOk(rows: Table, i: nat)
    requires i < |rows|
  {
    && InsertError(rows[i]).None?
    && if rows[i].supersedes.None? then Opening(rows[i])
       else rows[i].supersedes.value < i && Follows(rows[rows[i].supersedes.value], rows[i])
  }

  ghost predicate WordOk(rows: Table, i: nat)
    requires Grounded(rows) && i < |rows|
  {
    Legal(WordTo(rows, i))
  }

  ghost predicate Inv(rows: Table) {
    && Grounded(rows) && OneSuccessor(rows) && OnePlacement(rows)
    && (forall i {:trigger RowOk(rows, i)} | 0 <= i < |rows| :: RowOk(rows, i))
    && (forall i {:trigger WordOk(rows, i)} | 0 <= i < |rows| :: WordOk(rows, i))
  }

  lemma {:induction false} AppendKeepsWord(rows: Table, s: Scope, i: nat)
    requires Grounded(rows) && Grounded(rows + [s]) && i < |rows|
    ensures WordTo(rows + [s], i) == WordTo(rows, i)
  {
    if rows[i].supersedes.Some? {
      AppendKeepsWord(rows, s, rows[i].supersedes.value);
    }
  }

  /** The door accepts a review exactly when the target is the tip of its lineage, has not expired,
      was not reported empty, and the action continues a legal word. */
  lemma {:induction false} AcceptedExactly(rows: Table, room: nat, i: nat, action: Action, rev: Revision, now: int)
    requires Inv(rows)
    ensures ReviewError(rows, room, i, action, rev, now).None? <==>
              && i < |rows| && rows[i].room == room
              && (forall j | 0 <= j < |rows| :: rows[j].supersedes != Some(i))
              && (rows[i].expires.None? || now < rows[i].expires.value) && rows[i].sourceState != ConfirmedEmpty
              && Legal(WordTo(rows, i) + [action])
              && (action == Redraw ==> rev.geometry.Some? && WellFormed(rows[i].kind, rev.geometry.value))
  {
    if i < |rows| {
      assert RowOk(rows, i);
      NextAction(rows, i, action);
    }
  }

  /** Whether an action continues the word of a row is told by the row's own action, and by its being the first. */
  lemma NextAction(rows: Table, i: nat, action: Action)
    requires Inv(rows) && i < |rows|
    ensures Legal(WordTo(rows, i) + [action]) <==> MayFollow(rows[i].action, rows[i].supersedes.None?, action)
  {
    assert WordOk(rows, i);
    LegalExtends(WordTo(rows, i), action);
    WordLength(rows, i);
  }

  lemma WordLength(rows: Table, i: nat)
    requires Grounded(rows) && i < |rows|
    ensures |WordTo(rows, i)| == 1 <==> rows[i].supersedes.None?
  {
    if rows[i].supersedes.Some? {
      assert |WordTo(rows, rows[i].supersedes.value)| > 0;
    }
  }

  lemma ReviewKeepsInv(rows: Table, room: nat, i: nat, action: Action, rev: Revision, now: int)
    requires Inv(rows)
    ensures Inv(Reviewed(rows, room, i, action, rev, now))
  {
    if ReviewError(rows, room, i, action, rev, now).None? {
      AcceptedExactly(rows, room, i, action, rev, now);
      assert RowOk(rows, i);
      AppendKeepsInv(rows, Successor(rows[i], i, action, rev, now));
    }
  }

  /** A row that opens a lineage, or that legally follows a tip, keeps the invariant. */
  lemma {:induction false} AppendKeepsInv(rows: Table, s: Scope)
    requires Inv(rows) && InsertError(s).None?
    requires if s.supersedes.None?
             then Opening(s) && forall j | 0 <= j < |rows| :: !SamePlacement(rows[j], s)
             else var i := s.supersedes.value;
                  i < |rows| && !HasSuccessor(rows, i) && Follows(rows[i], s) && Legal(WordTo(rows, i) + [s.action])
    ensures Inv(rows + [s])
  {
    var t := rows + [s];
    forall k | 0 <= k < |t| ensures RowOk(t, k) {
      if k < |rows| { assert RowOk(rows, k); }
    }
    forall k | 0 <= k < |t| ensures WordOk(t, k) {
      if k < |rows| {
        assert WordOk(rows, k);
        AppendKeepsWord(rows, s, k);
      } else if s.supersedes.Some? {
        AppendKeepsWord(rows, s, s.supersedes.value);
      }
    }
  }

  /** Every table the doors can produce satisfies the invariant. */
  lemma {:induction false} RunKeepsInv(requests: seq<Request>)
    ensures Inv(Run(requests))
  {
    if requests != [] {
      var rows := Run(requests[..|requests| - 1]);
      RunKeepsInv(requests[..|requests| - 1]);
      match requests[|requests| - 1]
      case Opens(s) => if Opened(rows, s) != rows { AppendKeepsInv(rows, s); }
      case Reviews(room, i, action, rev, now) => ReviewKeepsInv(rows, room, i, action, rev, now);
    }
  }

  // ---- lineages ---------------------------------------------------------------------------------------------

  function LinksOf(rows: Table): (links: Lineage.Links)
    ensures |links| == |rows|
    ensures forall k | 0 <= k < |rows| :: links[k] == Lineage.Link(rows[k].room, rows[k].supersedes)
  {
    seq(|rows|, k requires 0 <= k < |rows| => Lineage.Link(rows[k].room, rows[k].supersedes))
  }

  lemma InvThreads(rows: Table)
    requires Inv(rows)
    ensures Lineage.Threaded(LinksOf(rows))
  {
    var links := LinksOf(rows);
    assert Lineage.Grounded(links);
    forall i | 0 <= i < |links| ensures Lineage.KeepsRoom(links, i) {
      assert RowOk(rows, i);
    }
  }

  lemma SameTips(rows: Table, i: nat)
    ensures HasSuccessor(rows, i) <==> Lineage.HasSuccessor(LinksOf(rows), i)
  {
    if HasSuccessor(rows, i) {
      var j :| 0 <= j < |rows| && rows[j].supersedes == Some(i);
      assert LinksOf(rows)[j].up == Some(i);
    }
  }

  predicate SameIdentity(a: Scope, b: Scope) {
    a.room == b.room && a.subject == b.subject && a.kind == b.kind && a.provenance == b.provenance
    && a.sourceState == b.sourceState
  }

  lemma {:induction false} IdentityAlongPath(rows: Table, i: nat, j: nat)
    requires Inv(rows) && i < |rows| && Lineage.Threaded(LinksOf(rows)) && j in Lineage.PathTo(LinksOf(rows), i)
    ensures j < |rows| && SameIdentity(rows[j], rows[i])
  {
    assert RowOk(rows, i);
    assert LinksOf(rows)[i].up == rows[i].supersedes;
    if j != i {
      IdentityAlongPath(rows, rows[i].supersedes.value, j);
    }
  }

  /** The actions along any lineage spell a word of the language, and every row of it keeps the
      root's room, subject, kind, provenance and source state. */
  lemma {:induction false} LineageIsLegal(requests: seq<Request>, i: nat)
    requires i < |Run(requests)|
    ensures var rows := Run(requests);
            Grounded(rows) && Legal(WordTo(rows, i)) && Lineage.Grounded(LinksOf(rows))
            && forall j | j in Lineage.PathTo(LinksOf(rows), i) :: j < |rows| && SameIdentity(rows[j], rows[i])
  {
    var rows := Run(requests);
    RunKeepsInv(requests);
    InvThreads(rows);
    assert WordOk(rows, i);
    forall j | j in Lineage.PathTo(LinksOf(rows), i) ensures j < |rows| && SameIdentity(rows[j], rows[i]) {
      IdentityAlongPath(rows, i, j);
    }
  }

  /** Between two neighbours of a lineage the geometry and the title change only at a redraw, and
      the expiry only at a confirmation. */
  lemma {:induction false} NeighboursDiffer(requests: seq<Request>, i: nat)
    requires i < |Run(requests)| && Run(requests)[i].supersedes.Some?
    ensures var rows := Run(requests);
            rows[i].supersedes.value < i
            && var before, after := rows[rows[i].supersedes.value], rows[i];
               (before.geometry != after.geometry || before.title != after.title ==> after.action == Redraw)
               && (before.expires != after.expires ==> after.action == Confirm)
  {
    RunKeepsInv(requests);
    assert RowOk(Run(requests), i);
  }

  /** A rejected or withdrawn scope never gains a successor. */
  lemma {:induction false} RejectionIsFinal(requests: seq<Request>, i: nat)
    requires i < |Run(requests)| && Run(requests)[i].action in {Reject, Supersede}
    ensures !HasSuccessor(Run(requests), i)
  {
    var rows := Run(requests);
    RunKeepsInv(requests);
    if HasSuccessor(rows, i) {
      var j :| 0 <= j < |rows| && rows[j].supersedes == Some(i);
      assert WordOk(rows, i) && WordOk(rows, j);
      assert WordTo(rows, j) == WordTo(rows, i) + [rows[j].action];
      LegalExtends(WordTo(rows, i), rows[j].action);
    }
  }

  /** A lineage has at most one live scope, whatever the clocks, and it is the tip: every row of the
      lineage is on its path. */
  lemma {:induction false} OneLiveScope(requests: seq<Request>, i: nat, j: nat, now: int, now': int)
    requires i < |Run(requests)| && j < |Run(requests)| && Lineage.Grounded(LinksOf(Run(requests)))
    requires Lineage.Root(LinksOf(Run(requests)), i) == Lineage.Root(LinksOf(Run(requests)), j)
    requires Live(Run(requests), i, now)
    ensures j in Lineage.PathTo(LinksOf(Run(requests)), i)
    ensures Live(Run(requests), j, now') ==> i == j
  {
    var rows := Run(requests);
    RunKeepsInv(requests);
    InvThreads(rows);
    SameTips(rows, i);
    SameTips(rows, j);
    Lineage.TipIsUnique(LinksOf(rows), i, j);
  }

  /** The review page of any row of a lineage: it cannot fail, it lists the path from the root to the
      tip, and it is the same page whichever row of the lineage it was asked for. */
  lemma ReviewPageIsTheLineage(requests: seq<Request>, i: nat, j: nat)
    requires i < |Run(requests)| && j < |Run(requests)| && Lineage.Grounded(LinksOf(Run(requests)))
    requires Lineage.Root(LinksOf(Run(requests)), i) == Lineage.Root(LinksOf(Run(requests)), j)
    ensures var rows := Run(requests);
            var links := LinksOf(rows);
            var page := Lineage.ReviewOf(links, rows[i].room, i);
            && page.Ok? && Lineage.WholePath(links, i, page.value.path)
            && page.value.root == Lineage.Root(links, i) && page.value.current == page.value.path[|page.value.path| - 1]
            && Lineage.ReviewOf(links, rows[j].room, j) == page
  {
    var rows := Run(requests);
    RunKeepsInv(requests);
    InvThreads(rows);
    var links := LinksOf(rows);
    Lineage.ReviewFindsLineage(links, i);
    Lineage.ReviewFindsLineage(links, j);
    Lineage.OneWholePath(links, i, j, Lineage.ReviewOf(links, rows[i].room, i).value.path,
                         Lineage.ReviewOf(links, rows[j].room, j).value.path);
  }

  // ---- rows field by field --------------------------------------------------------------------------------------

  lemma {:induction false} HeadIsBeforeColon(word: string)
    ensures forall c <- Head(word) :: c != ':'
    ensures Head(word) <= word && (Head(word) == word || word[|Head(word)|] == ':')
  {
    if word != "" && word[0] != ':' { HeadIsBeforeColon(word[1..]); }
  }

  /** The word is one of the three, alone or followed by a colon and a name. */
  ghost predicate KnownAcquisition(word: string) {
    exists known :: known in {"human", "adapter", "llm"} && (word == known || known + ":" <= word)
  }

  lemma KnownHeads(word: string)
    ensures Head(word) in {"human", "adapter", "llm"} <==> KnownAcquisition(word)
  {
    HeadIsBeforeColon(word);
    if Head(word) in {"human", "adapter", "llm"} {
      assert word == Head(word) || Head(word) + ":" <= word;
    }
    if known :| known in {"human", "adapter", "llm"} && (word == known || known + ":" <= word) {
      SameHead(word, Head(word), known);
    }
  }

  /** What stands before the first colon is unique. */
  lemma SameHead(word: string, a: string, b: string)
    requires a <= word && b <= word && (forall c <- a :: c != ':') && (forall c <- b :: c != ':')
    requires (a == word || word[|a|] == ':') && (b == word || word[|b|] == ':')
    ensures a == b
  {
    forall k | 0 <= k < |a| ensures word[k] != ':' { assert a[k] in a; }
    forall k | 0 <= k < |b| ensures word[k] != ':' { assert b[k] in b; }
    assert a == word[..|a|] && b == word[..|b|];
  }

  /** What the one insert path accepts. */
  lemma InsertedExactly(s: Scope)
    ensures InsertError(s).None? <==>
              && (s.authority == HumanConfirmed <==> s.confirmedBy.Some?)
              && s.subject.entity in {"rooms", "messages", "reading_items", "memories", "field_marks"}
              && KnownAcquisition(s.provenance.acquisition)
              && (s.authority == MachineProposed ==> s.provenance.acquisition == "llm")
              && WellFormed(s.kind, s.geometry)
  {
    KnownHeads(s.provenance.acquisition);
  }

  /** The first row of a lineage: a person's own placement, the participant's proposal, or an adapter's signal that has
      not been placed in the room before. */
  lemma FirstRowsInFields(rows: Table, s: Scope)
    ensures Opened(rows, s) == rows || Opened(rows, s) == rows + [s]
    ensures Opened(rows, s) != rows <==>
              && InsertError(s).None? && s.supersedes.None?
              && match s.action
                 case Place => s.authority == HumanConfirmed && s.provenance.acquisition == "human"
                               && s.sourceState == Good && s.expires.None?
                 case Propose => s.authority == MachineProposed && s.sourceState == Good
                 case PlaceSignal =>
                   && s.authority == SourceReported && s.provenance.acquisition == "adapter:" + s.provenance.provider
                   && forall row <- rows ::
                        !(row.room == s.room && row.subject == s.subject && row.action == PlaceSignal)
                 case _ => false
  {
    assert rows + [s] != rows;
    if s.action == PlaceSignal {
      if row :| row in rows && row.room == s.room && row.subject == s.subject && row.action == PlaceSignal {
        var j :| 0 <= j < |rows| && rows[j] == row;
        assert SamePlacement(rows[j], s);
      }
    }
  }

  /** An accepted review appends one row behind its target, in the reviewer's name: a redraw takes geometry and title
      from the request, a confirmation lifts the expiry, and everything else is the target's. */
  lemma ReviewInFields(rows: Table, room: nat, i: nat, action: Action, rev: Revision, now: int)
    requires ReviewError(rows, room, i, action, rev, now).None?
    ensures var after := Reviewed(rows, room, i, action, rev, now);
            && i < |rows| && |after| == |rows| + 1 && after[..|rows|] == rows
            && var was, next := rows[i], after[|rows|];
               && next.supersedes == Some(i) && next.action == action && next.authority == HumanConfirmed
               && next.confirmedBy == Some(rev.user) && next.note == rev.note && next.created == now
               && (if action == Redraw
                   then rev.geometry == Some(next.geometry) && (rev.title.Some? ==> next.title == rev.title.value)
                        && (rev.title.None? ==> next.title == "")
                   else next.geometry == was.geometry && next.title == was.title)
               && next.expires == (if action == Confirm then None else was.expires)
               && next.room == was.room && next.subject == was.subject && next.kind == was.kind
               && next.provenance == was.provenance && next.sourceState == was.sourceState
               && next.observed == was.observed && next.retrieved == was.retrieved
  {
  }

  /** What a scope reads as. */
  lemma StateInFields(rows: Table, i: nat)
    requires i < |rows|
    ensures var replaced := exists row :: row in rows && row.supersedes == Some(i);
            var ended := rows[i].action in {Reject, Supersede} || rows[i].sourceState == ConfirmedEmpty;
            && (StateOf(rows, i) == Superseded <==> replaced)
            && (StateOf(rows, i) == Rejected <==> !replaced && ended)
            && (StateOf(rows, i) == Proposed <==> !replaced && !ended && rows[i].authority == MachineProposed)
  {
    if row :| row in rows && row.supersedes == Some(i) {
      var j :| 0 <= j < |rows| && rows[j] == row;
    }
    if j :| 0 <= j < |rows| && rows[j].supersedes == Some(i) {
      assert rows[j] in rows;
    }
  }
}
