/** The process-wide store of provider snapshots: bounded replacement, room projection and resolution by identifier. */
module WorldSignals {
  import opened Common

  type Room = nat

  // ---------------------------------------------------------------- identifiers

  predicate IsLower(c: char) { 'a' <= c <= 'z' }

  predicate IsDigit(c: char) { '0' <= c <= '9' }

  predicate IsProvider(s: string) {
    && 1 <= |s| <= 64 && IsLower(s[0])
    && forall c <- s :: IsLower(c) || IsDigit(c) || c == '_' || c == '-'
  }

  predicate IsAlnum(c: char) { IsLower(c) || 'A' <= c <= 'Z' || IsDigit(c) }

  predicate IsSourceId(s: string) {
    && 1 <= |s| <= 192 && IsAlnum(s[0])
    && forall c <- s :: IsAlnum(c) || c == '.' || c == '_' || c == '~' || c == '-'
  }

  const PREFIX := "world_signal:"

  function SignalId(provider: string, sourceId: string): string {
    PREFIX + provider + ":" + sourceId
  }

  /** The position of the first colon, or the length. */
  function Colon(s: string): (k: nat)
    ensures k <= |s| && ':' !in s[..k] && (k < |s| ==> s[k] == ':')
  {
    if s == [] || s[0] == ':' then 0
    else
      var k := Colon(s[1..]);
      assert s[..1 + k] == [s[0]] + s[1..][..k];
      1 + k
  }

  function Parse(id: string): Option<(string, string)> {
    if |id| < |PREFIX| || id[..|PREFIX|] != PREFIX then None
    else
      var rest := id[|PREFIX|..];
      var k := Colon(rest);
      if k < |rest| && IsProvider(rest[..k]) && IsSourceId(rest[k + 1..]) then Some((rest[..k], rest[k + 1..]))
      else None
  }

  lemma {:induction false} ColonSplits(p: string, s: string)
    requires ':' !in p
    ensures Colon(p + ":" + s) == |p|
  {
    var t := p + ":" + s;
    if p != [] {
      ColonSplits(p[1..], s);
      assert t[1..] == p[1..] + ":" + s;
    }
  }

  lemma MadeIdParses(provider: string, sourceId: string)
    requires IsProvider(provider) && IsSourceId(sourceId)
    ensures Parse(SignalId(provider, sourceId)) == Some((provider, sourceId))
  {
    var id, rest := SignalId(provider, sourceId), provider + ":" + sourceId;
    assert id == PREFIX + rest;
    assert id[..|PREFIX|] == PREFIX && id[|PREFIX|..] == rest;
    ColonSplits(provider, sourceId);
    assert rest[..|provider|] == provider && rest[|provider| + 1..] == sourceId;
  }

  /** Reading an identifier gives back just what it was made of. */
  lemma ParsesExactly(id: string, provider: string, sourceId: string)
    ensures Parse(id) == Some((provider, sourceId))
            <==> IsProvider(provider) && IsSourceId(sourceId) && id == SignalId(provider, sourceId)
  {
    if Parse(id) == Some((provider, sourceId)) {
    }
    if IsProvider(provider) && IsSourceId(sourceId) && id == SignalId(provider, sourceId) {
      MadeIdParses(provider, sourceId);
    }
  }

  // ---------------------------------------------------------------- signals and snapshots

  datatype Signal = Signal(id: string, provider: string, sourceId: string, room: Room, stale: bool,
                           observed: Option<int>, retrieved: int, expires: Option<int>)

  datatype Snapshot = Snapshot(provider: string, rooms: set<Room>, stale: bool, retrieved: int,
                               expires: Option<int>, signals: seq<Signal>)

  const MAX_ROOMS := 200

  predicate Chronological(observed: Option<int>, retrieved: int, expires: Option<int>) {
    (observed.Some? ==> observed.value <= retrieved) && (expires.Some? ==> retrieved < expires.value)
  }

  predicate ValidSignal(s: Signal) {
    Parse(s.id) == Some((s.provider, s.sourceId)) && Chronological(s.observed, s.retrieved, s.expires)
  }

  /** No room carries an identifier twice. */
  predicate OncePerRoom(signals: seq<Signal>) {
    forall i, j :: 0 <= i < j < |signals| ==> signals[i].id != signals[j].id || signals[i].room != signals[j].room
  }

  predicate ValidSnapshot(s: Snapshot) {
    && IsProvider(s.provider) && 1 <= |s.rooms| <= MAX_ROOMS && Chronological(None, s.retrieved, s.expires)
    && (forall x <- s.signals :: ValidSignal(x) && x.provider == s.provider && x.room in s.rooms)
    && OncePerRoom(s.signals)
  }

  // ---------------------------------------------------------------- the store's contents

  function Total(snapshots: seq<Snapshot>): nat {
    if snapshots == [] then 0 else |snapshots[0].signals| + Total(snapshots[1..])
  }

  /** A provider's snapshot takes the place of its last one, or comes last. */
  function Put(snapshots: seq<Snapshot>, s: Snapshot): seq<Snapshot> {
    if snapshots == [] then [s]
    else if snapshots[0].provider == s.provider then [s] + snapshots[1..]
    else [snapshots[0]] + Put(snapshots[1..], s)
  }

  function Get(snapshots: seq<Snapshot>, provider: string): Option<Snapshot> {
    if snapshots == [] then None
    else if snapshots[0].provider == provider then Some(snapshots[0])
    else Get(snapshots[1..], provider)
  }

  predicate OnePerProvider(snapshots: seq<Snapshot>) {
    forall i, j :: 0 <= i < j < |snapshots| ==> snapshots[i].provider != snapshots[j].provider
  }

  datatype Bounds = Bounds(sources: nat, perSource: nat, total: nat)

  const DEFAULT_BOUNDS := Bounds(16, 2000, 5000)

  ghost predicate Within(snapshots: seq<Snapshot>, b: Bounds) {
    && |snapshots| <= b.sources && Total(snapshots) <= b.total
    && forall s <- snapshots :: |s.signals| <= b.perSource
  }

  ghost predicate Sound(snapshots: seq<Snapshot>) {
    OnePerProvider(snapshots) && forall s <- snapshots :: ValidSnapshot(s)
  }

  /** What replacing does to every provider's snapshot. */
  lemma {:induction false} PutGet(snapshots: seq<Snapshot>, s: Snapshot, provider: string)
    ensures Get(Put(snapshots, s), provider) ==
            if provider == s.provider then Some(s) else Get(snapshots, provider)
  {
    if snapshots != [] && snapshots[0].provider != s.provider {
      PutGet(snapshots[1..], s, provider);
      assert Put(snapshots, s)[1..] == Put(snapshots[1..], s);
    } else if snapshots != [] {
      assert Put(snapshots, s)[1..] == snapshots[1..];
    }
  }

  lemma {:induction false} PutMembers(snapshots: seq<Snapshot>, s: Snapshot, x: Snapshot)
    requires x in Put(snapshots, s)
    ensures x == s || x in snapshots
  {
    if snapshots != [] && snapshots[0].provider != s.provider && x != snapshots[0] {
      PutMembers(snapshots[1..], s, x);
    }
  }

  /** Every provider but the new one's stays where it was. */
  lemma {:induction false} PutKeepsPlaces(snapshots: seq<Snapshot>, s: Snapshot)
    ensures var put := Put(snapshots, s);
            && |snapshots| <= |put| <= |snapshots| + 1
            && (forall i :: 0 <= i < |snapshots| ==>
                  put[i] == snapshots[i] || (put[i] == s && snapshots[i].provider == s.provider))
            && (|put| == |snapshots| + 1 ==>
                  put[|snapshots|] == s && forall i :: 0 <= i < |snapshots| ==> snapshots[i].provider != s.provider)
  {
    if snapshots != [] && snapshots[0].provider != s.provider {
      PutKeepsPlaces(snapshots[1..], s);
      var tail := Put(snapshots[1..], s);
      forall i | 0 < i < |snapshots| ensures
        && Put(snapshots, s)[i] == tail[i - 1] && snapshots[i] == snapshots[1..][i - 1]
      {
      }
    }
  }

  lemma PutIsSound(snapshots: seq<Snapshot>, s: Snapshot)
    requires Sound(snapshots) && ValidSnapshot(s)
    ensures Sound(Put(snapshots, s))
  {
    PutKeepsPlaces(snapshots, s);
    forall x <- Put(snapshots, s) ensures ValidSnapshot(x) {
      PutMembers(snapshots, s, x);
    }
  }

  // ---------------------------------------------------------------- projection and resolution, as functions

  predicate Over(expires: Option<int>, now: int) {
    expires.Some? && expires.value <= now
  }

  predicate SnapshotOver(s: Snapshot, now: int) {
    s.stale || Over(s.expires, now)
  }

  /** The signals of a list that these rooms may see at this time. */
  function Visible(signals: seq<Signal>, eligible: set<Room>, now: int): seq<Signal> {
    if signals == [] then []
    else if signals[0].room in eligible && !signals[0].stale && !Over(signals[0].expires, now) then
      [signals[0]] + Visible(signals[1..], eligible, now)
    else Visible(signals[1..], eligible, now)
  }

  function Shown(s: Snapshot, eligible: set<Room>, now: int): seq<Signal> {
    if s.rooms * eligible == {} || SnapshotOver(s, now) then [] else Visible(s.signals, eligible, now)
  }

  function Projected(snapshots: seq<Snapshot>, eligible: set<Room>, now: int): seq<Signal> {
    if snapshots == [] then []
    else Projected(snapshots[..|snapshots| - 1], eligible, now) + Shown(snapshots[|snapshots| - 1], eligible, now)
  }

  /** The condition of a provider, kept apart from how many signals it shows. */
  datatype Source = Source(provider: string, rooms: set<Room>, stale: bool, count: nat)

  function Sources(snapshots: seq<Snapshot>, eligible: set<Room>, now: int): seq<Source> {
    if snapshots == [] then []
    else
      var before, s := Sources(snapshots[..|snapshots| - 1], eligible, now), snapshots[|snapshots| - 1];
      if s.rooms * eligible == {} then before
      else before + [Source(s.provider, s.rooms * eligible, SnapshotOver(s, now), |Shown(s, eligible, now)|)]
  }

  datatype ResolveError = MalformedId | NotFound | WrongRoom | Expired

  function FirstWith(signals: seq<Signal>, id: string): Option<Signal> {
    if signals == [] then None
    else if signals[0].id == id then Some(signals[0])
    else FirstWith(signals[1..], id)
  }

  function Resolved(snapshots: seq<Snapshot>, room: Room, id: string, now: int): Result<Signal, ResolveError> {
    var name := Parse(id);
    if name.None? then Err(MalformedId)
    else
      var snapshot := Get(snapshots, name.value.0);
      if snapshot.None? then Err(NotFound)
      else
        var signal := FirstWith(snapshot.value.signals, id);
        if signal.None? then Err(NotFound)
        else if signal.value.room != room then Err(WrongRoom)
        else if SnapshotOver(snapshot.value, now) || signal.value.stale || Over(signal.value.expires, now) then
          Err(Expired)
        else Ok(signal.value)
  }

  // ---------------------------------------------------------------- the store

  datatype ReplaceError = SourceTooLarge | TooManySources | TooManySignals

  class WorldSignalStore {
    const bounds: Bounds
    var snapshots: seq<Snapshot>

    ghost predicate Valid()
      reads this
    {
      Sound(snapshots) && Within(snapshots, bounds)
    }

    constructor (b: Bounds)
      requires b.sources > 0 && b.perSource > 0 && b.total > 0
      ensures Valid() && bounds == b && snapshots == []
    {
      bounds := b;
      snapshots := [];
    }

    /** One provider is replaced when every bound holds of the outcome; otherwise nothing changes. */
    method Replace(snapshot: Snapshot) returns (r: Result<(), ReplaceError>)
      requires Valid() && ValidSnapshot(snapshot)
      modifies `snapshots
      ensures Valid()
      ensures r.Ok? <==> Within(Put(old(snapshots), snapshot), bounds)
      ensures snapshots == if r.Ok? then Put(old(snapshots), snapshot) else old(snapshots)
      ensures r == Err(SourceTooLarge) ==> |snapshot.signals| > bounds.perSource
      ensures r == Err(TooManySources) ==> |Put(old(snapshots), snapshot)| > bounds.sources
      ensures r == Err(TooManySignals) ==> Total(Put(old(snapshots), snapshot)) > bounds.total
    {
      SnapshotIsPut(snapshots, snapshot);
      if |snapshot.signals| > bounds.perSource {
        return Err(SourceTooLarge);
      }
      var candidate := Put(snapshots, snapshot);
      if |candidate| > bounds.sources {
        return Err(TooManySources);
      }
      if Total(candidate) > bounds.total {
        return Err(TooManySignals);
      }
      forall x <- candidate ensures |x.signals| <= bounds.perSource {
        PutMembers(snapshots, snapshot, x);
      }
      PutIsSound(snapshots, snapshot);
      snapshots := candidate;
      return Ok(());
    }

    /** What a set of rooms sees at a time, and of which providers. */
    method Project(eligible: set<Room>, now: int) returns (signals: seq<Signal>, sources: seq<Source>)
      ensures signals == Projected(snapshots, eligible, now)
      ensures sources == Sources(snapshots, eligible, now)
    {
      signals, sources := [], [];
      for n := 0 to |snapshots|
        invariant signals == Projected(snapshots[..n], eligible, now)
        invariant sources == Sources(snapshots[..n], eligible, now)
      {
        var snapshot := snapshots[n];
        NextSnapshot(snapshots, n);
        var configured := snapshot.rooms * eligible;
        if configured == {} {
          continue;
        }
        var over := snapshot.stale || Over(snapshot.expires, now);
        var visible := if over then [] else Visible(snapshot.signals, eligible, now);
        sources := sources + [Source(snapshot.provider, configured, over, |visible|)];
        signals := signals + visible;
      }
      assert snapshots[..|snapshots|] == snapshots;
    }

    method Resolve(room: Room, id: string, now: int) returns (r: Result<Signal, ResolveError>)
      ensures r == Resolved(snapshots, room, id, now)
    {
      var name := Parse(id);
      if name.None? {
        return Err(MalformedId);
      }
      var snapshot := Get(snapshots, name.value.0);
      if snapshot.None? {
        return Err(NotFound);
      }
      var signal := FirstWith(snapshot.value.signals, id);
      if signal.None? {
        return Err(NotFound);
      }
      if signal.value.room != room {
        return Err(WrongRoom);
      }
      if SnapshotOver(snapshot.value, now) || signal.value.stale || Over(signal.value.expires, now) {
        return Err(Expired);
      }
      return Ok(signal.value);
    }
  }

  lemma {:induction false} SnapshotIsPut(snapshots: seq<Snapshot>, s: Snapshot)
    ensures s in Put(snapshots, s)
  {
    if snapshots != [] && snapshots[0].provider != s.provider {
      SnapshotIsPut(snapshots[1..], s);
    }
  }

  lemma NextSnapshot(snapshots: seq<Snapshot>, n: nat)
    requires n < |snapshots|
    ensures snapshots[..n + 1] == snapshots[..n] + [snapshots[n]]
    ensures snapshots[..n + 1][..n] == snapshots[..n] && snapshots[..n + 1][n] == snapshots[n]
  {
  }

  // ---------------------------------------------------------------- projection and resolution agree

  lemma {:induction false} VisibleMembers(signals: seq<Signal>, eligible: set<Room>, now: int, x: Signal)
    ensures x in Visible(signals, eligible, now) <==>
            x in signals && x.room in eligible && !x.stale && !Over(x.expires, now)
  {
    if signals != [] {
      VisibleMembers(signals[1..], eligible, now, x);
      assert x in signals <==> x == signals[0] || x in signals[1..];
    }
  }

  lemma {:induction false} ProjectedMembers(snapshots: seq<Snapshot>, eligible: set<Room>, now: int, x: Signal)
    ensures x in Projected(snapshots, eligible, now) <==> exists s :: s in snapshots && x in Shown(s, eligible, now)
  {
    if snapshots != [] {
      var init, last := snapshots[..|snapshots| - 1], snapshots[|snapshots| - 1];
      ProjectedMembers(init, eligible, now, x);
      assert forall s :: s in snapshots <==> s in init || s == last;
    }
  }

  lemma {:induction false} GetFinds(snapshots: seq<Snapshot>, s: Snapshot)
    requires OnePerProvider(snapshots) && s in snapshots
    ensures Get(snapshots, s.provider) == Some(s)
  {
    if s != snapshots[0] {
      var i :| 0 < i < |snapshots| && snapshots[i] == s;
      assert snapshots[1..][i - 1] == s;
      GetFinds(snapshots[1..], s);
    }
  }

  lemma {:induction false} GetIsMember(snapshots: seq<Snapshot>, provider: string)
    ensures var s := Get(snapshots, provider); s.Some? ==> s.value in snapshots && s.value.provider == provider
  {
    if snapshots != [] && snapshots[0].provider != provider {
      GetIsMember(snapshots[1..], provider);
    }
  }

  lemma {:induction false} FirstIsMember(signals: seq<Signal>, id: string)
    ensures var x := FirstWith(signals, id);
            if x.Some? then x.value in signals && x.value.id == id else forall y <- signals :: y.id != id
  {
    if signals != [] && signals[0].id != id {
      FirstIsMember(signals[1..], id);
      assert signals == [signals[0]] + signals[1..];
    }
  }

  /** What one room sees under one identifier. */
  ghost predicate Sees(snapshots: seq<Snapshot>, room: Room, id: string, now: int, x: Signal) {
    x in Projected(snapshots, {room}, now) && x.id == id
  }

  /** The room of the first signal under an identifier, in its provider's snapshot. */
  function Holder(snapshots: seq<Snapshot>, id: string): Option<Room> {
    var name := Parse(id);
    if name.None? || Get(snapshots, name.value.0).None? then None
    else
      var x := FirstWith(Get(snapshots, name.value.0).value.signals, id);
      if x.Some? then Some(x.value.room) else None
  }

  /** Where a signal that a room sees is kept. */
  lemma SeenIsKept(snapshots: seq<Snapshot>, room: Room, id: string, now: int, x: Signal)
    requires Sound(snapshots)
    ensures Sees(snapshots, room, id, now, x) <==>
            var s := if Parse(id).Some? then Get(snapshots, Parse(id).value.0) else None;
            && s.Some? && x in s.value.signals && x.id == id && x.room == room
            && !SnapshotOver(s.value, now) && !x.stale && !Over(x.expires, now)
  {
    ProjectedMembers(snapshots, {room}, now, x);
    if Sees(snapshots, room, id, now, x) {
      var s :| s in snapshots && x in Shown(s, {room}, now);
      VisibleMembers(s.signals, {room}, now, x);
      assert ValidSnapshot(s) && ValidSignal(x);
      GetFinds(snapshots, s);
    }
    if Parse(id).Some? && Get(snapshots, Parse(id).value.0).Some? {
      GetIsMember(snapshots, Parse(id).value.0);
      var s := Get(snapshots, Parse(id).value.0).value;
      VisibleMembers(s.signals, {room}, now, x);
      if x in s.signals && x.room == room {
        assert ValidSnapshot(s);
        assert room in s.rooms * {room};
      }
    }
  }

  /** An identifier resolves in a room exactly to what the room sees under it and was the first to hold. */
  lemma ResolvesExactly(snapshots: seq<Snapshot>, room: Room, id: string, now: int, x: Signal)
    requires Sound(snapshots)
    ensures Resolved(snapshots, room, id, now) == Ok(x) <==>
            Sees(snapshots, room, id, now, x) && Holder(snapshots, id) == Some(room)
    ensures Sees(snapshots, room, id, now, x) && Holder(snapshots, id) != Some(room) ==>
            Resolved(snapshots, room, id, now) == Err(WrongRoom)
  {
    SeenIsKept(snapshots, room, id, now, x);
    if Parse(id).Some? && Get(snapshots, Parse(id).value.0).Some? {
      var s := Get(snapshots, Parse(id).value.0).value;
      GetIsMember(snapshots, Parse(id).value.0);
      assert ValidSnapshot(s);
      FirstIsMember(s.signals, id);
      var first := FirstWith(s.signals, id);
      if x in s.signals && x.id == id && first.Some? && first.value.room == room && x.room == room {
      }
    }
  }

  /** An identifier occurs once in a snapshot, whatever the room. */
  predicate OnceAtAll(signals: seq<Signal>) {
    forall i, j :: 0 <= i < j < |signals| ==> signals[i].id != signals[j].id
  }

  ghost predicate Unambiguous(snapshots: seq<Snapshot>) {
    forall s <- snapshots :: OnceAtAll(s.signals)
  }

  lemma {:induction false} PutStaysUnambiguous(snapshots: seq<Snapshot>, s: Snapshot)
    requires Unambiguous(snapshots) && OnceAtAll(s.signals)
    ensures Unambiguous(Put(snapshots, s))
  {
    forall x <- Put(snapshots, s) ensures OnceAtAll(x.signals) {
      PutMembers(snapshots, s, x);
    }
  }

  /** Where identifiers occur once, a room resolves just what it sees. */
  lemma SeenIsResolved(snapshots: seq<Snapshot>, room: Room, id: string, now: int, x: Signal)
    requires Sound(snapshots) && Unambiguous(snapshots)
    ensures Resolved(snapshots, room, id, now) == Ok(x) <==> Sees(snapshots, room, id, now, x)
  {
    ResolvesExactly(snapshots, room, id, now, x);
    SeenIsKept(snapshots, room, id, now, x);
    if Sees(snapshots, room, id, now, x) {
      var s := Get(snapshots, Parse(id).value.0).value;
      GetIsMember(snapshots, Parse(id).value.0);
      FirstIsMember(s.signals, id);
      var i :| 0 <= i < |s.signals| && s.signals[i] == x;
      var first := FirstWith(s.signals, id).value;
      var j :| 0 <= j < |s.signals| && s.signals[j] == first;
      assert OnceAtAll(s.signals);
      assert i == j;
    }
  }

  /** Two rooms that hold one identifier: the snapshot is valid, the second room sees it and cannot resolve it. */
  lemma SharedContactIsWrongRoom() returns (s: Snapshot, x: Signal)
    ensures ValidSnapshot(s) && Sees([s], 1, x.id, 0, x) && Resolved([s], 1, x.id, 0) == Err(WrongRoom)
  {
    var id := SignalId("a", "b");
    x := Signal(id, "a", "b", 1, false, None, 0, None);
    var first := x.(room := 0);
    s := Snapshot("a", {0, 1}, false, 0, None, [first, x]);
    ParsesExactly(id, "a", "b");
    assert ValidSignal(x) && ValidSignal(first);
    assert s in [s];
    SeenIsKept([s], 1, id, 0, x);
    assert x in s.signals;
  }

  // ---------------------------------------------------------------- projections count what they show

  function Counts(sources: seq<Source>): nat {
    if sources == [] then 0 else Counts(sources[..|sources| - 1]) + sources[|sources| - 1].count
  }

  lemma {:induction false} CountsAddUp(snapshots: seq<Snapshot>, eligible: set<Room>, now: int)
    ensures Counts(Sources(snapshots, eligible, now)) == |Projected(snapshots, eligible, now)|
  {
    if snapshots != [] {
      var init := snapshots[..|snapshots| - 1];
      CountsAddUp(init, eligible, now);
      var before, all := Sources(init, eligible, now), Sources(snapshots, eligible, now);
      assert all == before || all[..|all| - 1] == before;
    }
  }

  // ---------------------------------------------------------------- the same in fields

  /** A provider is a lower-case name of at most 64 letters, a source one of at most 192. */
  lemma NamesInFull(s: string)
    ensures IsProvider(s) <==>
            && 1 <= |s| <= 64 && 'a' <= s[0] <= 'z'
            && forall i | 0 <= i < |s| :: 'a' <= s[i] <= 'z' || '0' <= s[i] <= '9' || s[i] == '_' || s[i] == '-'
    ensures IsSourceId(s) <==>
            && 1 <= |s| <= 192 && ('a' <= s[0] <= 'z' || 'A' <= s[0] <= 'Z' || '0' <= s[0] <= '9')
            && forall i | 0 <= i < |s| ::
                 'a' <= s[i] <= 'z' || 'A' <= s[i] <= 'Z' || '0' <= s[i] <= '9'
                 || s[i] == '.' || s[i] == '_' || s[i] == '~' || s[i] == '-'
  {
    AllOf(s, (c: char) => IsLower(c) || IsDigit(c) || c == '_' || c == '-');
    AllOf(s, (c: char) => IsAlnum(c) || c == '.' || c == '_' || c == '~' || c == '-');
  }

  lemma AllOf(s: string, p: char -> bool)
    ensures (forall c <- s :: p(c)) <==> forall i | 0 <= i < |s| :: p(s[i])
  {
    if forall c <- s :: p(c) {
      forall i | 0 <= i < |s| ensures p(s[i]) { assert s[i] in s; }
    }
  }

  /** What a signal's own checks ask of the modelled fields. */
  lemma SignalChecks(s: Signal)
    ensures ValidSignal(s) <==>
            && IsProvider(s.provider) && IsSourceId(s.sourceId)
            && s.id == "world_signal:" + s.provider + ":" + s.sourceId
            && (s.observed.Some? ==> s.observed.value <= s.retrieved)
            && (s.expires.Some? ==> s.retrieved < s.expires.value)
  {
    ParsesExactly(s.id, s.provider, s.sourceId);
  }

  /** What a snapshot's own checks ask. */
  lemma SnapshotChecks(s: Snapshot)
    ensures ValidSnapshot(s) <==>
            && IsProvider(s.provider) && 1 <= |s.rooms| <= 200
            && (s.expires.Some? ==> s.retrieved < s.expires.value)
            && (forall x | x in s.signals :: ValidSignal(x) && x.provider == s.provider && x.room in s.rooms)
            && forall i, j | 0 <= i < j < |s.signals| ::
                 !(s.signals[i].id == s.signals[j].id && s.signals[i].room == s.signals[j].room)
  {
  }

  /** Not marked as expired, and not past its end. */
  predicate Current(s: Snapshot, now: int) { !s.stale && (s.expires.None? || now < s.expires.value) }

  predicate CurrentSignal(x: Signal, now: int) { !x.stale && (x.expires.None? || now < x.expires.value) }

  /** Some rooms see a signal just if it is for one of them, and it and its snapshot are current and meant for one. */
  lemma SeenInFields(snapshots: seq<Snapshot>, eligible: set<Room>, now: int, x: Signal)
    ensures x in Projected(snapshots, eligible, now) <==>
            exists s :: s in snapshots && x in s.signals && x.room in eligible
                        && (exists room :: room in s.rooms && room in eligible)
                        && Current(s, now) && CurrentSignal(x, now)
  {
    ProjectedMembers(snapshots, eligible, now, x);
    forall s | s in snapshots
      ensures x in Shown(s, eligible, now) <==>
              x in s.signals && x.room in eligible && (exists room :: room in s.rooms && room in eligible)
              && Current(s, now) && CurrentSignal(x, now)
    {
      VisibleMembers(s.signals, eligible, now, x);
      MeetsExactly(s.rooms, eligible);
    }
  }

  lemma MeetsExactly(a: set<Room>, b: set<Room>)
    ensures a * b != {} <==> exists room :: room in a && room in b
  {
    if a * b != {} { var room :| room in a * b; }
    if room :| room in a && room in b { assert room in a * b; }
  }

  /** What is no longer seen at one time is not seen at any later one. */
  lemma SeeingIsOneWay(snapshots: seq<Snapshot>, eligible: set<Room>, now: int, later: int, x: Signal)
    requires now <= later && x in Projected(snapshots, eligible, later)
    ensures x in Projected(snapshots, eligible, now)
  {
    SeenInFields(snapshots, eligible, now, x);
    SeenInFields(snapshots, eligible, later, x);
    var s :| s in snapshots && x in s.signals && x.room in eligible
             && (exists room :: room in s.rooms && room in eligible) && Current(s, later) && CurrentSignal(x, later);
    assert Current(s, now) && CurrentSignal(x, now);
  }

  /** A listed source is a provider with a snapshot for some of these rooms: just these of its rooms are named, and
      it is marked as over exactly if its snapshot is. */
  lemma {:induction false} SourcesInFields(snapshots: seq<Snapshot>, eligible: set<Room>, now: int, source: Source)
    ensures source in Sources(snapshots, eligible, now) ==>
              exists s :: s in snapshots && s.provider == source.provider && DescribesSource(s, eligible, now, source)
  {
    if snapshots != [] && source in Sources(snapshots, eligible, now) {
      var init, last := snapshots[..|snapshots| - 1], snapshots[|snapshots| - 1];
      if source in Sources(init, eligible, now) {
        SourcesInFields(init, eligible, now, source);
        var s :| s in init && s.provider == source.provider && DescribesSource(s, eligible, now, source);
        assert s in snapshots;
      } else {
        assert last in snapshots && DescribesSource(last, eligible, now, source);
      }
    }
  }

  ghost predicate DescribesSource(s: Snapshot, eligible: set<Room>, now: int, source: Source) {
    && source.rooms != {} && (forall room :: room in source.rooms <==> room in s.rooms && room in eligible)
    && (source.stale <==> !Current(s, now))
    && source.count == |Shown(s, eligible, now)|
  }

  /** Every provider with a snapshot for some of these rooms is listed. */
  lemma {:induction false} SourcesAreComplete(snapshots: seq<Snapshot>, eligible: set<Room>, now: int, s: Snapshot,
                                              room: Room)
    requires s in snapshots && room in s.rooms && room in eligible
    ensures exists source :: source in Sources(snapshots, eligible, now) && source.provider == s.provider
  {
    var init := snapshots[..|snapshots| - 1];
    if s in init {
      SourcesAreComplete(init, eligible, now, s, room);
      var source :| source in Sources(init, eligible, now) && source.provider == s.provider;
      assert source in Sources(snapshots, eligible, now);
    } else {
      assert room in s.rooms * eligible;
      var sources := Sources(snapshots, eligible, now);
      assert sources[|sources| - 1].provider == s.provider && sources[|sources| - 1] in sources;
    }
  }

  ghost predicate KeptIn(snapshots: seq<Snapshot>, s: Snapshot, x: Signal, id: string) {
    s in snapshots && x in s.signals && x.id == id
  }

  ghost predicate Explains(snapshots: seq<Snapshot>, room: Room, id: string, now: int,
                           r: Result<Signal, ResolveError>)
  {
    match r
    case Ok(x) => exists s :: KeptIn(snapshots, s, x, id) && x.room == room && Current(s, now) && CurrentSignal(x, now)
    case Err(MalformedId) =>
      !exists provider, source :: IsProvider(provider) && IsSourceId(source) && id == SignalId(provider, source)
    case Err(NotFound) => forall s, x | s in snapshots && x in s.signals :: x.id != id
    case Err(WrongRoom) => exists s, x :: KeptIn(snapshots, s, x, id) && x.room != room
    case Err(Expired) =>
      exists s, x :: KeptIn(snapshots, s, x, id) && x.room == room && !(Current(s, now) && CurrentSignal(x, now))
  }

  /** What each answer of a resolution says. */
  lemma ResolutionInFields(snapshots: seq<Snapshot>, room: Room, id: string, now: int)
    requires Sound(snapshots)
    ensures Explains(snapshots, room, id, now, Resolved(snapshots, room, id, now))
  {
    var name := Parse(id);
    if name.None? {
      forall provider, source | IsProvider(provider) && IsSourceId(source) ensures id != SignalId(provider, source) {
        ParsesExactly(id, provider, source);
      }
    } else {
      NothingElsewhere(snapshots, id);
      var s := Get(snapshots, name.value.0);
      if s.Some? {
        GetIsMember(snapshots, name.value.0);
        FirstIsMember(s.value.signals, id);
        var x := FirstWith(s.value.signals, id);
        if x.Some? { FoundIsExplained(snapshots, room, id, now, s.value, x.value); }
      }
    }
  }

  lemma FoundIsExplained(snapshots: seq<Snapshot>, room: Room, id: string, now: int, s: Snapshot, x: Signal)
    requires KeptIn(snapshots, s, x, id)
    ensures Explains(snapshots, room, id, now,
                     if x.room != room then Err(WrongRoom)
                     else if SnapshotOver(s, now) || x.stale || Over(x.expires, now) then Err(Expired) else Ok(x))
  {
  }

  /** A signal under an identifier is kept in the snapshot of the provider that the identifier names. */
  lemma NothingElsewhere(snapshots: seq<Snapshot>, id: string)
    requires Sound(snapshots) && Parse(id).Some?
    ensures forall s, x | s in snapshots && x in s.signals && x.id == id :: Get(snapshots, Parse(id).value.0) == Some(s)
  {
    forall s, x | s in snapshots && x in s.signals && x.id == id
      ensures Get(snapshots, Parse(id).value.0) == Some(s)
    {
      assert ValidSnapshot(s) && ValidSignal(x);
      GetFinds(snapshots, s);
    }
  }
}
