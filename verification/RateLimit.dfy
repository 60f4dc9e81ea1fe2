/** The request limiter: pruned and evicted buckets against a log that forgets nothing. */
module RateLimit {

  /** One request: the policy it names and the reading of the clock when it came. */
  datatype Call = Call(key: string, limit: int, window: int, now: real)

  type Buckets = map<string, seq<real>>

  const HOUR := 3600.0

  /** The stamps after the cutoff, in their order. */
  function Live(stamps: seq<real>, cutoff: real): seq<real> {
    if stamps == [] then []
    else if stamps[0] > cutoff then [stamps[0]] + Live(stamps[1..], cutoff)
    else Live(stamps[1..], cutoff)
  }

  predicate Stale(stamps: seq<real>, cutoff: real) {
    stamps == [] || stamps[|stamps| - 1] <= cutoff
  }

  function Bucket(requests: Buckets, key: string): seq<real> {
    if key in requests then requests[key] else []
  }

  // ---------------------------------------------------------------- the limiter

  function Evict(requests: Buckets, cutoff: real): Buckets {
    map k | k in requests && !Stale(requests[k], cutoff) :: requests[k]
  }

  /** The bucket a call looks at: evicted if stale, then pruned to the window. */
  function Pruned(requests: Buckets, c: Call): seq<real> {
    Live(Bucket(Evict(requests, c.now - HOUR), c.key), c.now - c.window as real)
  }

  predicate Allows(requests: Buckets, c: Call) {
    |Pruned(requests, c)| < c.limit
  }

  /** What the limiter holds after one call. */
  function Step(requests: Buckets, c: Call): Buckets {
    var bucket := Pruned(requests, c);
    Evict(requests, c.now - HOUR)[c.key := if Allows(requests, c) then bucket + [c.now] else bucket]
  }

  /** What the limiter holds after a run of calls, oldest first. */
  function After(calls: seq<Call>): Buckets {
    if calls == [] then map[] else Step(After(calls[..|calls| - 1]), calls[|calls| - 1])
  }

  /** Whether the last call of a run is allowed. */
  predicate Decision(calls: seq<Call>)
    requires calls != []
  {
    Allows(After(calls[..|calls| - 1]), calls[|calls| - 1])
  }

  class RateLimiter {
    var requests: Buckets

    constructor ()
      ensures requests == After([])
    {
      requests := map[];
    }

    /** Drops every bucket whose newest stamp is an hour old. */
    method EvictStale(cutoff: real)
      modifies `requests
      ensures requests == Evict(old(requests), cutoff)
    {
      var known := requests.Keys;
      while known != {}
        invariant known <= requests.Keys <= old(requests).Keys
        invariant forall k <- requests :: requests[k] == old(requests)[k]
        invariant forall k <- old(requests).Keys - known :: k in requests <==> !Stale(old(requests)[k], cutoff)
        decreases known
      {
        var k :| k in known;
        if requests[k] == [] || requests[k][|requests[k]| - 1] <= cutoff {
          requests := requests - {k};
        }
        known := known - {k};
      }
    }

    method IsAllowed(key: string, limit: int, window: int, now: real) returns (allowed: bool)
      modifies this
      ensures requests == Step(old(requests), Call(key, limit, window, now))
      ensures allowed == Allows(old(requests), Call(key, limit, window, now))
    {
      EvictStale(now - HOUR);
      var bucket := Live(Bucket(requests, key), now - window as real);
      assert bucket == Pruned(old(requests), Call(key, limit, window, now));
      requests := requests[key := bucket];
      if |bucket| >= limit {
        return false;
      }
      requests := requests[key := bucket + [now]];
      return true;
    }
  }

  // ---------------------------------------------------------------- the log that forgets nothing

  predicate LogAllows(log: seq<real>, c: Call) {
    |Live(log, c.now - c.window as real)| < c.limit
  }

  /** What a log that is never pruned records of a call. */
  function Noted(log: seq<real>, c: Call, key: string): seq<real> {
    if c.key == key && LogAllows(log, c) then log + [c.now] else log
  }

  /** The stamps of a key that a limiter which never drops one has accepted. */
  function Log(calls: seq<Call>, key: string): seq<real> {
    if calls == [] then [] else Noted(Log(calls[..|calls| - 1], key), calls[|calls| - 1], key)
  }

  predicate LogDecision(calls: seq<Call>)
    requires calls != []
  {
    var c := calls[|calls| - 1];
    LogAllows(Log(calls[..|calls| - 1], c.key), c)
  }

  /** The clock never runs backwards. */
  predicate Monotone(calls: seq<Call>) {
    forall i, j :: 0 <= i < j < |calls| ==> calls[i].now <= calls[j].now
  }

  predicate FixedWindow(calls: seq<Call>, window: string -> int) {
    forall i :: 0 <= i < |calls| ==> calls[i].window == window(calls[i].key)
  }

  // ---------------------------------------------------------------- pruning

  predicate AtMost(stamps: seq<real>, bound: real) {
    forall i :: 0 <= i < |stamps| ==> stamps[i] <= bound
  }

  /** The last stamp is the newest, and it is not in the future. */
  predicate UpTo(stamps: seq<real>, now: real) {
    stamps != [] ==> AtMost(stamps, stamps[|stamps| - 1]) && stamps[|stamps| - 1] <= now
  }

  lemma {:induction false} LiveAppend(stamps: seq<real>, x: real, cutoff: real)
    ensures Live(stamps + [x], cutoff) == if x > cutoff then Live(stamps, cutoff) + [x] else Live(stamps, cutoff)
  {
    if stamps != [] {
      LiveAppend(stamps[1..], x, cutoff);
      assert (stamps + [x])[1..] == stamps[1..] + [x];
    } else {
      assert stamps + [x] == [x];
    }
  }

  /** Pruning twice is pruning at the later cutoff. */
  lemma {:induction false} LiveLive(stamps: seq<real>, early: real, late: real)
    requires early <= late
    ensures Live(Live(stamps, early), late) == Live(stamps, late)
  {
    if stamps != [] {
      LiveLive(stamps[1..], early, late);
      assert ([stamps[0]] + Live(stamps[1..], early))[1..] == Live(stamps[1..], early);
    }
  }

  lemma {:induction false} NothingLive(stamps: seq<real>, cutoff: real)
    requires AtMost(stamps, cutoff)
    ensures Live(stamps, cutoff) == []
  {
    if stamps != [] {
      NothingLive(stamps[1..], cutoff);
    }
  }

  lemma {:induction false} LiveAtMost(stamps: seq<real>, cutoff: real, bound: real)
    requires AtMost(stamps, bound)
    ensures AtMost(Live(stamps, cutoff), bound)
  {
    if stamps != [] {
      LiveAtMost(stamps[1..], cutoff, bound);
    }
  }

  lemma LiveUpTo(stamps: seq<real>, cutoff: real, now: real)
    requires UpTo(stamps, now)
    ensures UpTo(Live(stamps, cutoff), now)
  {
    if stamps != [] {
      var init, last := stamps[..|stamps| - 1], stamps[|stamps| - 1];
      assert stamps == init + [last];
      if last <= cutoff {
        NothingLive(stamps, cutoff);
      } else {
        LiveAppend(init, last, cutoff);
        LiveAtMost(stamps, cutoff, last);
      }
    }
  }

  // ---------------------------------------------------------------- the limiter follows the log

  function Held(calls: seq<Call>, key: string): seq<real> {
    Bucket(After(calls), key)
  }

  function Unstale(stamps: seq<real>, cutoff: real): seq<real> {
    if Stale(stamps, cutoff) then [] else stamps
  }

  function Touched(kept: seq<real>, c: Call, key: string): seq<real> {
    if c.key != key then kept
    else
      var bucket := Live(kept, c.now - c.window as real);
      if |bucket| < c.limit then bucket + [c.now] else bucket
  }

  /** What is held and what is logged show the same to every cutoff from `floor` on. */
  ghost predicate SameFrom(held: seq<real>, log: seq<real>, floor: real) {
    forall cutoff {:trigger Live(held, cutoff)} :: cutoff >= floor ==> Live(held, cutoff) == Live(log, cutoff)
  }

  /** Eviction takes only what no window of an hour or less can see. */
  lemma EvictionIsInvisible(held: seq<real>, log: seq<real>, now: real, floor: real, cutoff: real)
    requires SameFrom(held, log, floor) && UpTo(held, now) && Stale(held, cutoff) && cutoff <= floor
    ensures SameFrom([], log, floor)
  {
    forall late | late >= floor ensures Live([], late) == Live(log, late) {
      assert Live(held, late) == Live(log, late);
      NothingLive(held, late);
    }
  }

  lemma PruningIsInvisible(held: seq<real>, log: seq<real>, floor: real, cutoff: real)
    requires SameFrom(held, log, floor) && floor <= cutoff
    ensures SameFrom(Live(held, cutoff), log, cutoff)
  {
    forall late | late >= cutoff ensures Live(Live(held, cutoff), late) == Live(log, late) {
      LiveLive(held, cutoff, late);
    }
  }

  lemma AcceptingKeepsSame(held: seq<real>, log: seq<real>, floor: real, now: real)
    requires SameFrom(held, log, floor)
    ensures SameFrom(held + [now], log + [now], floor)
  {
    forall late | late >= floor ensures Live(held + [now], late) == Live(log + [now], late) {
      LiveAppend(held, now, late);
      LiveAppend(log, now, late);
    }
  }

  ghost predicate Tracks(held: seq<real>, log: seq<real>, now: real, floor: real) {
    UpTo(held, now) && SameFrom(held, log, floor)
  }

  ghost predicate Follows(calls: seq<Call>, window: string -> int, key: string) {
    if calls == [] then Held(calls, key) == Log(calls, key) == []
    else
      var now := calls[|calls| - 1].now;
      Tracks(Held(calls, key), Log(calls, key), now, now - window(key) as real)
  }

  /** The state of a key when a call arrives, after eviction. */
  lemma KeptFollows(calls: seq<Call>, window: string -> int, key: string)
    requires calls != [] && Monotone(calls) && window(key) <= 3600
    requires Follows(calls[..|calls| - 1], window, key)
    ensures var now, held := calls[|calls| - 1].now, Held(calls[..|calls| - 1], key);
            Tracks(Unstale(held, now - HOUR), Log(calls[..|calls| - 1], key), now, now - window(key) as real)
  {
    var init, now := calls[..|calls| - 1], calls[|calls| - 1].now;
    var held, log, floor := Held(init, key), Log(init, key), now - window(key) as real;
    if init != [] {
      assert init[|init| - 1].now <= now;
      assert SameFrom(held, log, floor);
      if Stale(held, now - HOUR) {
        EvictionIsInvisible(held, log, now, floor, now - HOUR);
      }
    }
  }

  /** One call: pruning and, if it is allowed, accepting. */
  lemma CallTracks(kept: seq<real>, log: seq<real>, c: Call, key: string, floor: real)
    requires Tracks(kept, log, c.now, floor) && (c.key == key ==> floor == c.now - c.window as real)
    ensures Tracks(Touched(kept, c, key), Noted(log, c, key), c.now, floor)
    ensures c.key == key ==> LogAllows(kept, c) == LogAllows(log, c)
  {
    if c.key == key {
      var bucket := Live(kept, floor);
      assert bucket == Live(log, floor);
      LiveUpTo(kept, floor, c.now);
      PruningIsInvisible(kept, log, floor, floor);
      AcceptingKeepsSame(bucket, log, floor, c.now);
    }
  }

  lemma {:induction false} LimiterFollowsLog(calls: seq<Call>, window: string -> int, key: string)
    requires Monotone(calls) && FixedWindow(calls, window) && window(key) <= 3600
    ensures Follows(calls, window, key)
    ensures calls != [] && calls[|calls| - 1].key == key ==> Decision(calls) == LogDecision(calls)
  {
    if calls != [] {
      var init, c := calls[..|calls| - 1], calls[|calls| - 1];
      LimiterFollowsLog(init, window, key);
      KeptFollows(calls, window, key);
      CallTracks(Unstale(Held(init, key), c.now - HOUR), Log(init, key), c, key, c.now - window(key) as real);
    }
  }

  /** Eviction and pruning change no decision, whatever keys are mixed. */
  lemma SameDecisions(calls: seq<Call>, window: string -> int)
    requires calls != [] && Monotone(calls) && FixedWindow(calls, window)
    requires window(calls[|calls| - 1].key) <= 3600
    ensures Decision(calls) == LogDecision(calls)
  {
    LimiterFollowsLog(calls, window, calls[|calls| - 1].key);
  }

  /** The stamps a run has had accepted by the limiter itself. */
  function Accepted(calls: seq<Call>, key: string): seq<real> {
    if calls == [] then []
    else
      var before := Accepted(calls[..|calls| - 1], key);
      if calls[|calls| - 1].key == key && Decision(calls) then before + [calls[|calls| - 1].now] else before
  }

  lemma {:induction false} AcceptedIsLog(calls: seq<Call>, window: string -> int, key: string)
    requires Monotone(calls) && FixedWindow(calls, window) && window(key) <= 3600
    ensures Accepted(calls, key) == Log(calls, key)
  {
    if calls != [] {
      AcceptedIsLog(calls[..|calls| - 1], window, key);
      if calls[|calls| - 1].key == key {
        SameDecisions(calls, window);
      }
    }
  }

  // ---------------------------------------------------------------- what the policy promises

  /** The stamps in the half-open window (end - window, end]. */
  function InWindow(stamps: seq<real>, end: real, window: int): seq<real> {
    if stamps == [] then []
    else if end - window as real < stamps[0] <= end then [stamps[0]] + InWindow(stamps[1..], end, window)
    else InWindow(stamps[1..], end, window)
  }

  lemma {:induction false} WindowAppend(stamps: seq<real>, x: real, end: real, window: int)
    ensures InWindow(stamps + [x], end, window) ==
            if end - window as real < x <= end then InWindow(stamps, end, window) + [x]
            else InWindow(stamps, end, window)
  {
    if stamps != [] {
      WindowAppend(stamps[1..], x, end, window);
      assert (stamps + [x])[1..] == stamps[1..] + [x];
    } else {
      assert stamps + [x] == [x];
    }
  }

  lemma {:induction false} WindowIsLive(stamps: seq<real>, end: real, window: int, cutoff: real)
    requires cutoff <= end - window as real
    ensures |InWindow(stamps, end, window)| <= |Live(stamps, cutoff)|
  {
    if stamps != [] {
      WindowIsLive(stamps[1..], end, window, cutoff);
    }
  }

  lemma {:induction false} WindowToNowIsLive(stamps: seq<real>, now: real, window: int)
    requires AtMost(stamps, now)
    ensures InWindow(stamps, now, window) == Live(stamps, now - window as real)
  {
    if stamps != [] {
      WindowToNowIsLive(stamps[1..], now, window);
    }
  }

  lemma {:induction false} LogAtMost(calls: seq<Call>, key: string)
    requires calls != [] && Monotone(calls)
    ensures AtMost(Log(calls, key), calls[|calls| - 1].now)
  {
    var init := calls[..|calls| - 1];
    if init != [] {
      LogAtMost(init, key);
      assert init[|init| - 1].now <= calls[|calls| - 1].now;
    }
  }

  predicate FixedLimit(calls: seq<Call>, key: string, limit: int) {
    forall i :: 0 <= i < |calls| && calls[i].key == key ==> calls[i].limit == limit
  }

  lemma {:induction false} LogNeverOverfull(calls: seq<Call>, window: string -> int, key: string, limit: nat, end: real)
    requires FixedWindow(calls, window) && FixedLimit(calls, key, limit)
    ensures |InWindow(Log(calls, key), end, window(key))| <= limit
  {
    if calls != [] {
      var init, c := calls[..|calls| - 1], calls[|calls| - 1];
      LogNeverOverfull(init, window, key, limit, end);
      var log := Log(init, key);
      if c.key == key && LogAllows(log, c) {
        WindowAppend(log, c.now, end, window(key));
        if c.now <= end {
          WindowIsLive(log, end, window(key), c.now - c.window as real);
        }
      }
    }
  }

  /** No window of the policy's length, wherever it ends, holds more accepted calls than the limit. */
  lemma {:induction false} NoWindowIsOverfull(calls: seq<Call>, window: string -> int, key: string,
                                              limit: nat, end: real)
    requires Monotone(calls) && FixedWindow(calls, window) && window(key) <= 3600 && FixedLimit(calls, key, limit)
    ensures |InWindow(Accepted(calls, key), end, window(key))| <= limit
  {
    AcceptedIsLog(calls, window, key);
    LogNeverOverfull(calls, window, key, limit, end);
  }

  /** When the clock has passed every stamp, the window that ends now is what is live. */
  lemma LogWindow(calls: seq<Call>)
    requires calls != [] && Monotone(calls)
    ensures var c := calls[|calls| - 1];
            LogDecision(calls) <==> |InWindow(Log(calls[..|calls| - 1], c.key), c.now, c.window)| < c.limit
  {
    var init, c := calls[..|calls| - 1], calls[|calls| - 1];
    if init != [] {
      LogAtMost(init, c.key);
      assert init[|init| - 1].now <= c.now;
    }
    WindowToNowIsLive(Log(init, c.key), c.now, c.window);
  }

  /** A call is refused exactly when the window that ends with it is full. */
  lemma {:induction false} RefusedExactlyWhenFull(calls: seq<Call>, window: string -> int, limit: nat)
    requires calls != [] && Monotone(calls) && FixedWindow(calls, window)
    requires window(calls[|calls| - 1].key) <= 3600 && FixedLimit(calls, calls[|calls| - 1].key, limit)
    ensures var c := calls[|calls| - 1];
            !Decision(calls) <==> |InWindow(Accepted(calls[..|calls| - 1], c.key), c.now, c.window)| == limit
  {
    var init, c := calls[..|calls| - 1], calls[|calls| - 1];
    SameDecisions(calls, window);
    LogWindow(calls);
    AcceptedIsLog(init, window, c.key);
    NoWindowIsOverfull(init, window, c.key, limit, c.now);
  }

  // ---------------------------------------------------------------- windows over an hour

  ghost predicate AgreesOnEveryRun(window: int) {
    forall calls: seq<Call> {:trigger Decision(calls)}
      | calls != [] && Monotone(calls) && FixedWindow(calls, (k: string) => window) ::
      Decision(calls) == LogDecision(calls)
  }

  /** Two calls an hour apart under a limit of one: the first has been evicted, yet the window still holds it. */
  lemma LongWindowForgets(window: int) returns (calls: seq<Call>)
    requires window > 3600
    ensures calls != [] && Monotone(calls) && FixedWindow(calls, (k: string) => window)
    ensures Decision(calls) && !LogDecision(calls)
  {
    var first, second := Call("", 1, window, 0.0), Call("", 1, window, HOUR);
    calls := [first, second];
    var one := [first];
    assert calls[..1] == one && one[..0] == [];
    assert Live([], 0.0 - window as real) == [];
    assert Held([], "") == [];
    assert Held(one, "") == [] + [0.0];
    assert Stale(Held(one, ""), HOUR - HOUR);
    assert Log(one, "") == [] + [0.0];
    LiveAppend([], 0.0, HOUR - window as real);
  }

  /** The hour of the eviction is exactly the longest window the limiter honours. */
  lemma AgreesExactlyUpToAnHour(window: int)
    ensures AgreesOnEveryRun(window) <==> window <= 3600
  {
    if window <= 3600 {
      forall calls: seq<Call> | calls != [] && Monotone(calls) && FixedWindow(calls, (k: string) => window)
        ensures Decision(calls) == LogDecision(calls)
      {
        SameDecisions(calls, (k: string) => window);
      }
    } else {
      var calls := LongWindowForgets(window);
    }
  }

  // ---------------------------------------------------------------- decisions by the calls themselves

  /** The call at i is one of the key, was allowed, and lies in the half-open window that ends at `end`. */
  ghost predicate Counted(calls: seq<Call>, key: string, end: real, window: int, i: int) {
    && 0 <= i < |calls| && calls[i].key == key && Decision(calls[..i + 1])
    && end - window as real < calls[i].now <= end
  }

  ghost function AllowedIn(calls: seq<Call>, key: string, end: real, window: int): set<int> {
    set i | 0 <= i < |calls| && Counted(calls, key, end, window, i)
  }

  lemma CountedBefore(calls: seq<Call>, key: string, end: real, window: int, i: int)
    requires 0 <= i < |calls| - 1
    ensures Counted(calls[..|calls| - 1], key, end, window, i) <==> Counted(calls, key, end, window, i)
  {
    assert calls[..|calls| - 1][..i + 1] == calls[..i + 1];
  }

  lemma OneMoreCounted(calls: seq<Call>, key: string, end: real, window: int)
    requires calls != []
    ensures var n := |calls| - 1;
            AllowedIn(calls, key, end, window)
            == AllowedIn(calls[..n], key, end, window) + if Counted(calls, key, end, window, n) then {n} else {}
  {
    forall i | 0 <= i < |calls| - 1
      ensures Counted(calls[..|calls| - 1], key, end, window, i) <==> Counted(calls, key, end, window, i)
    {
      CountedBefore(calls, key, end, window, i);
    }
  }

  lemma {:induction false} AllowedCounts(calls: seq<Call>, key: string, end: real, window: int)
    ensures |InWindow(Accepted(calls, key), end, window)| == |AllowedIn(calls, key, end, window)|
  {
    if calls == [] {
      assert AllowedIn(calls, key, end, window) == {};
    } else {
      var n := |calls| - 1;
      AllowedCounts(calls[..n], key, end, window);
      WindowAppend(Accepted(calls[..n], key), calls[n].now, end, window);
      OneMoreCounted(calls, key, end, window);
      assert calls[..n + 1] == calls;
    }
  }

  /** A call is refused exactly if as many earlier calls of its key as the limit were allowed within its window. */
  lemma RefusedByTheCalls(calls: seq<Call>, window: string -> int, limit: nat)
    requires calls != [] && Monotone(calls) && FixedWindow(calls, window)
    requires window(calls[|calls| - 1].key) <= 3600 && FixedLimit(calls, calls[|calls| - 1].key, limit)
    ensures var c := calls[|calls| - 1];
            !Decision(calls) <==> |AllowedIn(calls[..|calls| - 1], c.key, c.now, c.window)| == limit
  {
    var init, c := calls[..|calls| - 1], calls[|calls| - 1];
    RefusedExactlyWhenFull(calls, window, limit);
    AllowedCounts(init, c.key, c.now, c.window);
  }
}
