/** From a provider's observations to a snapshot: one observation per source, then the first room that watches it. */
module SignalAdapters {
  import opened Common
  import opened WorldSignals
  import FireCells
  import RayCast
  import RoomFences

  /**
   * An adapter's observation. `age` is the provider's seconds since the fix; `plain` says that the fields not modelled
   * here (layer, label, details) make a valid signal.
   */
  datatype Observation = Observation(sourceId: string, lon: real, lat: real, worldwide: bool, observed: Option<int>,
                                     age: Option<real>, lifetime: int, plain: bool)

  // ---------------------------------------------------------------- one observation per source

  predicate Newer(candidate: Observation, incumbent: Observation) {
    if candidate.observed.Some? && incumbent.observed.Some? then candidate.observed.value > incumbent.observed.value
    else if candidate.observed.Some? || incumbent.observed.Some? then candidate.observed.Some?
    else candidate.age.Some? && incumbent.age.Some? && candidate.age.value < incumbent.age.value
  }

  /** `best` keeps one report for each source among `seen`, and none of them is newer. */
  ghost predicate Keeps(best: map<string, Observation>, seen: seq<Observation>) {
    && (forall id {:trigger id in best} :: id in best ==> best[id] in seen && best[id].sourceId == id)
    && (forall o {:trigger o in seen} :: o in seen ==> o.sourceId in best && !Newer(o, best[o.sourceId]))
  }

  function Ids(seen: seq<Observation>): seq<string> {
    seq(|seen|, i requires 0 <= i < |seen| => seen[i].sourceId)
  }

  /** The identifiers in the order of their first report. */
  function FirstMet(ids: seq<string>): seq<string> {
    if ids == [] then []
    else
      var before, id := FirstMet(ids[..|ids| - 1]), ids[|ids| - 1];
      if id in before then before else before + [id]
  }

  lemma FirstMetStep(ids: seq<string>, id: string)
    ensures FirstMet(ids + [id]) == if id in FirstMet(ids) then FirstMet(ids) else FirstMet(ids) + [id]
  {
    assert (ids + [id])[..|ids|] == ids;
  }

  lemma {:induction false} FirstMetIsSet(ids: seq<string>)
    ensures forall id :: id in FirstMet(ids) <==> id in ids
    ensures forall i, j :: 0 <= i < j < |FirstMet(ids)| ==> FirstMet(ids)[i] != FirstMet(ids)[j]
  {
    if ids != [] {
      FirstMetIsSet(ids[..|ids| - 1]);
      assert ids == ids[..|ids| - 1] + [ids[|ids| - 1]];
    }
  }

  /** A report that beats the best is beaten by nothing that did not beat the best. */
  lemma NewerIsTransitive(a: Observation, b: Observation, c: Observation)
    requires Newer(a, b) && Newer(b, c)
    ensures Newer(a, c) && !Newer(b, a)
  {
  }

  lemma KeepsNext(best: map<string, Observation>, seen: seq<Observation>, o: Observation)
    requires Keeps(best, seen)
    ensures o.sourceId !in best || Newer(o, best[o.sourceId]) ==> Keeps(best[o.sourceId := o], seen + [o])
    ensures o.sourceId in best && !Newer(o, best[o.sourceId]) ==> Keeps(best, seen + [o])
  {
    if o.sourceId in best && Newer(o, best[o.sourceId]) {
      forall p <- seen | p.sourceId == o.sourceId ensures !Newer(p, o) {
        if Newer(p, o) {
          NewerIsTransitive(p, o, best[o.sourceId]);
        }
      }
    }
  }

  /** One report for each source in the order in which the sources first spoke, each of them reported, none beaten. */
  ghost predicate OnePerSource(kept: seq<Observation>, observations: seq<Observation>) {
    && Ids(kept) == FirstMet(Ids(observations))
    && (forall k {:trigger k in kept} :: k in kept ==> k in observations)
    && (forall o, k {:trigger o in observations, k in kept} ::
          o in observations && k in kept && o.sourceId == k.sourceId ==> !Newer(o, k))
  }

  lemma KeptIsOnePerSource(kept: seq<Observation>, best: map<string, Observation>, observations: seq<Observation>)
    requires Keeps(best, observations) && |kept| == |FirstMet(Ids(observations))|
    requires forall i :: 0 <= i < |kept| ==>
               FirstMet(Ids(observations))[i] in best && kept[i] == best[FirstMet(Ids(observations))[i]]
    ensures OnePerSource(kept, observations)
  {
    var order := FirstMet(Ids(observations));
    forall i | 0 <= i < |order| ensures Ids(kept)[i] == order[i] {
      assert order[i] in best;
    }
    assert Ids(kept) == order;
    forall k <- kept ensures k in observations && k == best[k.sourceId] && k.sourceId in best {
      var i :| 0 <= i < |kept| && kept[i] == k;
      assert order[i] in best;
    }
  }

  method DedupeBySource(observations: seq<Observation>) returns (kept: seq<Observation>)
    ensures OnePerSource(kept, observations)
  {
    var best: map<string, Observation>, order: seq<string> := map[], [];
    for n := 0 to |observations|
      invariant Keeps(best, observations[..n]) && order == FirstMet(Ids(observations[..n]))
      invariant forall id :: id in order <==> id in best
    {
      var o := observations[n];
      assert observations[..n + 1] == observations[..n] + [o];
      assert Ids(observations[..n + 1]) == Ids(observations[..n]) + [o.sourceId];
      FirstMetStep(Ids(observations[..n]), o.sourceId);
      KeepsNext(best, observations[..n], o);
      if o.sourceId !in best {
        order := order + [o.sourceId];
        best := best[o.sourceId := o];
      } else if Newer(o, best[o.sourceId]) {
        best := best[o.sourceId := o];
      }
    }
    assert observations[..|observations|] == observations;
    kept := seq(|order|, i requires 0 <= i < |order| && order[i] in best => best[order[i]]);
    KeptIsOnePerSource(kept, best, observations);
  }

  predicate DistinctSources(observations: seq<Observation>) {
    forall i, j :: 0 <= i < j < |observations| ==> observations[i].sourceId != observations[j].sourceId
  }

  /** What is kept has distinct sources, and every report has a kept one of its source that it does not beat. */
  lemma DedupedAreDistinct(observations: seq<Observation>, kept: seq<Observation>)
    requires OnePerSource(kept, observations)
    ensures DistinctSources(kept)
    ensures forall o <- observations :: exists k :: k in kept && k.sourceId == o.sourceId && !Newer(o, k)
  {
    var order := FirstMet(Ids(observations));
    FirstMetIsSet(Ids(observations));
    forall i | 0 <= i < |kept| ensures kept[i].sourceId == order[i] {
      assert Ids(kept)[i] == order[i];
    }
    forall o <- observations ensures exists k :: k in kept && k.sourceId == o.sourceId && !Newer(o, k) {
      var n :| 0 <= n < |observations| && observations[n] == o;
      assert Ids(observations)[n] == o.sourceId;
      assert o.sourceId in order;
      var i :| 0 <= i < |order| && order[i] == o.sourceId;
      assert kept[i] in kept;
    }
  }

  // ---------------------------------------------------------------- the first room that watches it

  const MAX_SIGNALS_PER_PROVIDER := 1500

  /** The first fence that holds the observation; any fence holds a worldwide one. */
  function FirstFence(fences: seq<RoomFences.Fence>, o: Observation): (i: nat)
    ensures i <= |fences|
    ensures i < |fences| ==> o.worldwide || RoomFences.Contains(fences[i], o.lon, o.lat)
    ensures forall j :: 0 <= j < i ==> !o.worldwide && !RoomFences.Contains(fences[j], o.lon, o.lat)
  {
    if fences == [] || o.worldwide || RoomFences.Contains(fences[0], o.lon, o.lat) then 0
    else 1 + FirstFence(fences[1..], o)
  }

  /** The signal an observation gives a room, unless it fails the signal's own checks. */
  function SignalFor(provider: string, o: Observation, room: Room, stale: bool, retrieved: int): Option<Signal> {
    var observed := if o.observed.Some? && o.observed.value > retrieved then Some(retrieved) else o.observed;
    var s := Signal(SignalId(provider, o.sourceId), provider, o.sourceId, room, stale, observed, retrieved,
                    Some(retrieved + o.lifetime));
    if o.plain && ValidSignal(s) then Some(s) else None
  }

  function Contribution(provider: string, o: Observation, fences: seq<RoomFences.Fence>, stale: bool, retrieved: int)
    : Option<Signal>
  {
    var i := FirstFence(fences, o);
    if i < |fences| then SignalFor(provider, o, fences[i].room, stale, retrieved) else None
  }

  /** What the observations contribute, until the provider's cap is reached. */
  function Collected(provider: string, observations: seq<Observation>, fences: seq<RoomFences.Fence>, stale: bool,
                     retrieved: int): seq<Signal>
  {
    if observations == [] then []
    else
      var before := Collected(provider, observations[..|observations| - 1], fences, stale, retrieved);
      var s := Contribution(provider, observations[|observations| - 1], fences, stale, retrieved);
      if s.None? || |before| >= MAX_SIGNALS_PER_PROVIDER then before else before + [s.value]
  }

  lemma CollectedStep(provider: string, observations: seq<Observation>, o: Observation,
                      fences: seq<RoomFences.Fence>, stale: bool, retrieved: int)
    ensures var before := Collected(provider, observations, fences, stale, retrieved);
            var s := Contribution(provider, o, fences, stale, retrieved);
            Collected(provider, observations + [o], fences, stale, retrieved) ==
            if s.None? || |before| >= MAX_SIGNALS_PER_PROVIDER then before else before + [s.value]
  {
    assert (observations + [o])[..|observations|] == observations;
  }

  /** Beyond the cap nothing is collected. */
  lemma {:induction false} CapHolds(provider: string, observations: seq<Observation>, n: nat,
                                    fences: seq<RoomFences.Fence>, stale: bool, retrieved: int)
    requires n <= |observations|
    requires |Collected(provider, observations[..n], fences, stale, retrieved)| >= MAX_SIGNALS_PER_PROVIDER
    ensures Collected(provider, observations, fences, stale, retrieved) ==
            Collected(provider, observations[..n], fences, stale, retrieved)
  {
    if n == |observations| {
      assert observations[..n] == observations;
    } else {
      var init := observations[..|observations| - 1];
      assert init[..n] == observations[..n];
      CapHolds(provider, init, n, fences, stale, retrieved);
    }
  }

  function Watched(fences: seq<RoomFences.Fence>): set<Room> {
    set f | f in fences :: f.room
  }

  /** Fans the observations out over the rooms. Without a room there is no snapshot. */
  method BuildSnapshot(provider: string, observations: seq<Observation>, fences: seq<RoomFences.Fence>, stale: bool,
                       retrieved: int) returns (snapshot: Option<Snapshot>)
    ensures snapshot == if fences == [] then None
                        else Some(Snapshot(provider, Watched(fences), stale, retrieved, None,
                                           Collected(provider, observations, fences, stale, retrieved)))
  {
    if fences == [] {
      return None;
    }
    var signals: seq<Signal> := [];
    var n := 0;
    while n < |observations|
      invariant n <= |observations|
      invariant signals == Collected(provider, observations[..n], fences, stale, retrieved)
    {
      if |signals| >= MAX_SIGNALS_PER_PROVIDER {
        break;
      }
      var o := observations[n];
      assert observations[..n + 1] == observations[..n] + [o];
      CollectedStep(provider, observations[..n], o, fences, stale, retrieved);
      var i := 0;
      while i < |fences| && !o.worldwide && !RoomFences.Contains(fences[i], o.lon, o.lat)
        invariant i <= FirstFence(fences, o)
      {
        i := i + 1;
      }
      assert i == FirstFence(fences, o);
      if i < |fences| {
        var s := SignalFor(provider, o, fences[i].room, stale, retrieved);
        if s.Some? {
          signals := signals + [s.value];
        }
      }
      n := n + 1;
    }
    if n < |observations| {
      CapHolds(provider, observations, n, fences, stale, retrieved);
    } else {
      assert observations[..n] == observations;
    }
    return Some(Snapshot(provider, Watched(fences), stale, retrieved, None, signals));
  }

  /** An observation inside a live scope is always given a room, before the cut of the fences. */
  lemma {:induction false} InsideAScopeIsWatched(rows: seq<RoomFences.ScopeRow>, all: seq<RoomFences.Fence>,
                                                 i: nat, kind: RayCast.Kind, o: Observation)
    requires RoomFences.FencedBy(all, rows)
    requires i < |rows| && RayCast.WellFormed(kind, rows[i].geometry)
    requires RayCast.InGeometry(rows[i].geometry, o.lon, o.lat)
    ensures FirstFence(all, o) < |all|
  {
    RoomFences.FenceNeverMisses(rows, all, i, kind, o.lon, o.lat);
  }

  // ---------------------------------------------------------------- what the store may rely on

  lemma ContributedBy(provider: string, o: Observation, fences: seq<RoomFences.Fence>, stale: bool, retrieved: int)
    ensures var s := Contribution(provider, o, fences, stale, retrieved);
            s.Some? ==>
              && s.value.sourceId == o.sourceId && ValidSignal(s.value) && s.value.provider == provider
              && s.value.id == SignalId(provider, o.sourceId) && s.value.room in Watched(fences)
  {
  }

  /** Where a collected signal comes from. */
  lemma {:induction false} CollectedFrom(provider: string, observations: seq<Observation>,
                                         fences: seq<RoomFences.Fence>, stale: bool, retrieved: int, x: Signal)
    requires x in Collected(provider, observations, fences, stale, retrieved)
    ensures x.sourceId in Ids(observations)
    ensures ValidSignal(x) && x.provider == provider && x.id == SignalId(provider, x.sourceId)
            && x.room in Watched(fences)
  {
    var init, last := observations[..|observations| - 1], observations[|observations| - 1];
    assert Ids(observations) == Ids(init) + [last.sourceId];
    if x in Collected(provider, init, fences, stale, retrieved) {
      CollectedFrom(provider, init, fences, stale, retrieved, x);
    } else {
      ContributedBy(provider, last, fences, stale, retrieved);
    }
  }

  lemma EarlierIdsDiffer(provider: string, observations: seq<Observation>, fences: seq<RoomFences.Fence>, stale: bool,
                         retrieved: int, x: Signal)
    requires observations != [] && DistinctSources(observations)
    requires x in Collected(provider, observations[..|observations| - 1], fences, stale, retrieved)
    ensures x.id != SignalId(provider, observations[|observations| - 1].sourceId)
  {
    var init, last := observations[..|observations| - 1], observations[|observations| - 1];
    CollectedFrom(provider, init, fences, stale, retrieved, x);
    var i :| 0 <= i < |init| && Ids(init)[i] == x.sourceId;
    assert init[i] == observations[i];
    if x.id == SignalId(provider, last.sourceId) {
      SameIdSameSource(provider, x.sourceId, last.sourceId);
    }
  }

  lemma {:induction false} CollectedOnce(provider: string, observations: seq<Observation>,
                                         fences: seq<RoomFences.Fence>, stale: bool, retrieved: int)
    requires DistinctSources(observations)
    ensures var signals := Collected(provider, observations, fences, stale, retrieved);
            OnceAtAll(signals) && |signals| <= MAX_SIGNALS_PER_PROVIDER
  {
    if observations != [] {
      var init, last := observations[..|observations| - 1], observations[|observations| - 1];
      CollectedOnce(provider, init, fences, stale, retrieved);
      var before := Collected(provider, init, fences, stale, retrieved);
      var s := Contribution(provider, last, fences, stale, retrieved);
      if s.Some? {
        forall x <- before ensures x.id != s.value.id {
          EarlierIdsDiffer(provider, observations, fences, stale, retrieved, x);
        }
      }
    }
  }

  /** Identifiers of one provider differ with their sources. */
  lemma SameIdSameSource(provider: string, a: string, b: string)
    requires SignalId(provider, a) == SignalId(provider, b)
    ensures a == b
  {
    var k := |PREFIX| + |provider| + 1;
    assert SignalId(provider, a)[k..] == a && SignalId(provider, b)[k..] == b;
  }

  /**
   * A snapshot built from distinct sources is accepted by the snapshot's own checks, names no contact twice and keeps
   * the store's bound on one source.
   */
  lemma {:induction false} BuiltIsValid(provider: string, observations: seq<Observation>,
                                        fences: seq<RoomFences.Fence>, stale: bool, retrieved: int)
    requires IsProvider(provider) && fences != [] && |Watched(fences)| <= WorldSignals.MAX_ROOMS
    requires DistinctSources(observations)
    ensures var s := Snapshot(provider, Watched(fences), stale, retrieved, None,
                              Collected(provider, observations, fences, stale, retrieved));
            ValidSnapshot(s) && OnceAtAll(s.signals) && |s.signals| <= DEFAULT_BOUNDS.perSource
  {
    var signals := Collected(provider, observations, fences, stale, retrieved);
    CollectedOnce(provider, observations, fences, stale, retrieved);
    assert fences[0].room in Watched(fences);
    forall x <- signals ensures ValidSignal(x) && x.provider == provider && x.room in Watched(fences) {
      CollectedFrom(provider, observations, fences, stale, retrieved, x);
    }
  }

  // ---------------------------------------------------------------- the store over a run of polls

  /** What a provider sent: events taken as listed (earthquakes, launches), contacts heard over several rooms
      (aircraft), one tracked station, or fire pixels. */
  datatype Feed =
    | Listed(events: seq<Observation>)
    | Heard(contacts: seq<Observation>)
    | Tracked(station: Observation)
    | Burning(pixels: seq<FireCells.Pixel>)

  /** What the adapter makes of a feed. */
  ghost predicate Reported(feed: Feed, observations: seq<Observation>) {
    match feed
    case Listed(events) => observations == events
    case Heard(contacts) => OnePerSource(observations, contacts)
    case Tracked(station) => observations == [station]
    case Burning(pixels) => Ids(observations) == FireCells.Sources(pixels)
  }

  /** Only where an adapter takes names from the feed as they are must the feed keep them apart. */
  predicate NamesApart(feed: Feed) {
    match feed
    case Listed(events) => DistinctSources(events)
    case Burning(pixels) => FireCells.Printed(pixels) && FireCells.DaysToldApart(pixels)
    case _ => true
  }

  lemma FeedsAreDistinct(feed: Feed, observations: seq<Observation>)
    requires Reported(feed, observations) && NamesApart(feed)
    ensures DistinctSources(observations)
  {
    match feed
    case Heard(contacts) => DedupedAreDistinct(contacts, observations);
    case Burning(pixels) =>
      FireCells.SourcesDifferExactly(pixels);
      forall i | 0 <= i < |observations| ensures observations[i].sourceId == FireCells.Sources(pixels)[i] {
        assert Ids(observations)[i] == observations[i].sourceId;
      }
    case _ =>
  }

  /** One poll of an adapter: what its provider reported, over the rooms of the time. */
  datatype Poll = Poll(provider: string, feed: Feed, observations: seq<Observation>, fences: seq<RoomFences.Fence>,
                       stale: bool, retrieved: int)

  ghost predicate LegalPoll(p: Poll) {
    && IsProvider(p.provider) && |Watched(p.fences)| <= WorldSignals.MAX_ROOMS
    && Reported(p.feed, p.observations) && NamesApart(p.feed)
  }

  function SnapshotOf(p: Poll): Snapshot {
    Snapshot(p.provider, Watched(p.fences), p.stale, p.retrieved, None,
             Collected(p.provider, p.observations, p.fences, p.stale, p.retrieved))
  }

  /** The store after polls: each replaces its provider's snapshot, unless there is no room or a bound refuses it. */
  ghost function AfterPolls(polls: seq<Poll>, b: Bounds): seq<Snapshot> {
    if polls == [] then []
    else
      var before, p := AfterPolls(polls[..|polls| - 1], b), polls[|polls| - 1];
      if p.fences == [] || !Within(Put(before, SnapshotOf(p)), b) then before else Put(before, SnapshotOf(p))
  }

  lemma {:induction false} PolledIsSound(polls: seq<Poll>, b: Bounds)
    requires forall p <- polls :: LegalPoll(p)
    ensures Sound(AfterPolls(polls, b)) && Unambiguous(AfterPolls(polls, b)) && Within(AfterPolls(polls, b), b)
  {
    if polls != [] {
      var p := polls[|polls| - 1];
      var before := AfterPolls(polls[..|polls| - 1], b);
      PolledIsSound(polls[..|polls| - 1], b);
      if p.fences != [] {
        assert LegalPoll(p);
        FeedsAreDistinct(p.feed, p.observations);
        BuiltIsValid(p.provider, p.observations, p.fences, p.stale, p.retrieved);
        PutIsSound(before, SnapshotOf(p));
        PutStaysUnambiguous(before, SnapshotOf(p));
      }
    }
  }

  /** In every store that polls can fill, a room resolves an identifier exactly when it sees it, at every instant. */
  lemma {:induction false} PolledStoresAgree(polls: seq<Poll>, b: Bounds, room: Room, id: string, now: int, x: Signal)
    requires forall p <- polls :: LegalPoll(p)
    ensures var store := AfterPolls(polls, b);
            Resolved(store, room, id, now) == Ok(x) <==> Sees(store, room, id, now, x)
  {
    PolledIsSound(polls, b);
    SeenIsResolved(AfterPolls(polls, b), room, id, now, x);
  }

  // ---------------------------------------------------------------- the same in fields

  /** A report is newer by the provider's clock where both have one; one with a clock is newer than one without; and
      without clocks the smaller age is newer. */
  lemma NewerInFields(a: Observation, b: Observation)
    ensures Newer(a, b) <==>
            || (a.observed.Some? && b.observed.Some? && b.observed.value < a.observed.value)
            || (a.observed.Some? && b.observed.None?)
            || (a.observed.None? && b.observed.None? && a.age.Some? && b.age.Some? && a.age.value < b.age.value)
  {
  }

  /** The kept report of a source has the latest clock of all its reports, or the least age where none has a clock. */
  lemma KeptIsFreshest(kept: seq<Observation>, observations: seq<Observation>, k: Observation, o: Observation)
    requires OnePerSource(kept, observations) && k in kept && o in observations && o.sourceId == k.sourceId
    ensures o.observed.Some? ==> k.observed.Some? && o.observed.value <= k.observed.value
    ensures k.observed.None? && k.age.Some? && o.age.Some? ==> k.age.value <= o.age.value
  {
    assert !Newer(o, k);
  }

  ghost predicate HeldBy(f: RoomFences.Fence, o: Observation) {
    o.worldwide || (f.box.west <= o.lon <= f.box.east && f.box.south <= o.lat <= f.box.north)
  }

  /** An observation becomes a signal for the room of the first fence that holds it, with its own source, a clock that
      is not ahead of the retrieval, and an end one lifetime after the retrieval. */
  lemma ContributionInFields(provider: string, o: Observation, fences: seq<RoomFences.Fence>, stale: bool,
                             retrieved: int)
    ensures var s := Contribution(provider, o, fences, stale, retrieved);
            && (s.Some? <==> (exists i :: 0 <= i < |fences| && HeldBy(fences[i], o)) && o.plain && o.lifetime > 0
                             && IsProvider(provider) && IsSourceId(o.sourceId))
            && (s.Some? ==>
                  && s.value.id == "world_signal:" + provider + ":" + o.sourceId
                  && s.value.provider == provider && s.value.sourceId == o.sourceId && s.value.stale == stale
                  && s.value.retrieved == retrieved && s.value.expires == Some(retrieved + o.lifetime)
                  && (o.observed.None? ==> s.value.observed == None)
                  && (o.observed.Some? ==>
                        s.value.observed == Some(if o.observed.value <= retrieved then o.observed.value else retrieved))
                  && exists i :: 0 <= i < |fences| && HeldBy(fences[i], o) && s.value.room == fences[i].room
                                 && forall j | 0 <= j < i :: !HeldBy(fences[j], o))
  {
    var i := FirstFence(fences, o);
    assert forall j | 0 <= j < |fences| ::
        HeldBy(fences[j], o) <==> o.worldwide || RoomFences.Contains(fences[j], o.lon, o.lat);
    if i < |fences| {
      var observed := if o.observed.Some? && o.observed.value > retrieved then Some(retrieved) else o.observed;
      SignalChecks(Signal(SignalId(provider, o.sourceId), provider, o.sourceId, fences[i].room, stale, observed,
                          retrieved, Some(retrieved + o.lifetime)));
    }
  }

  /** No more than 1500 signals are collected, and nothing but what observations contribute. */
  lemma {:induction false} CollectedInFields(provider: string, observations: seq<Observation>,
                                             fences: seq<RoomFences.Fence>, stale: bool, retrieved: int)
    ensures var signals := Collected(provider, observations, fences, stale, retrieved);
            && |signals| <= 1500
            && (forall x | x in signals ::
                  exists o :: o in observations && Contribution(provider, o, fences, stale, retrieved) == Some(x))
            && (|signals| < 1500 ==> forall o | o in observations ::
                  var s := Contribution(provider, o, fences, stale, retrieved); s.Some? ==> s.value in signals)
  {
    if observations != [] {
      var init, last := observations[..|observations| - 1], observations[|observations| - 1];
      CollectedInFields(provider, init, fences, stale, retrieved);
      assert observations == init + [last];
      forall x | x in Collected(provider, observations, fences, stale, retrieved)
        ensures exists o :: o in observations && Contribution(provider, o, fences, stale, retrieved) == Some(x)
      {
        if x in Collected(provider, init, fences, stale, retrieved) {
          var o :| o in init && Contribution(provider, o, fences, stale, retrieved) == Some(x);
          assert o in observations;
        } else {
          assert last in observations;
        }
      }
    }
  }
}
