/**
 Keyset pages over a thread's ancestry, addressed by cursors. The ancestry is the set of its message
 coordinates, and it does not change while it is being paged.
 */
module MessagePages {
  import opened Common
  import opened MessageCursor

  predicate Before(a: Coordinate, b: Coordinate) {
    a.created < b.created || (a.created == b.created && a.id < b.id)
  }

  ghost predicate Ascending(s: seq<Coordinate>) {
    forall i, j | 0 <= i < j < |s| :: Before(s[i], s[j])
  }

  // ---- ORDER BY (created_at, id) -------------------------------------------------------------------

  ghost function Last(all: set<Coordinate>): (m: Coordinate)
    requires all != {}
    ensures m in all && forall x | x in all :: x == m || Before(x, m)
  {
    var x :| x in all;
    if all == {x} then x
    else
      assert all - {x} == {} ==> all == {x};
      var m := Last(all - {x});
      assert forall y | y in all :: y == x || y in all - {x};
      if Before(m, x) then x else m
  }

  ghost function Sorted(all: set<Coordinate>): (s: seq<Coordinate>)
    ensures forall x :: x in s <==> x in all
    ensures |s| == |all|
  {
    if all == {} then [] else Sorted(all - {Last(all)}) + [Last(all)]
  }

  /** The sorted listing is strictly ascending: nothing is repeated. */
  lemma {:induction false} SortedAscends(all: set<Coordinate>)
    ensures Ascending(Sorted(all))
  {
    if all != {} {
      SortedAscends(all - {Last(all)});
      var init := Sorted(all - {Last(all)});
      forall i | 0 <= i < |init| ensures Before(init[i], Last(all)) {
        assert init[i] in init;
      }
    }
  }

  lemma InitMembers(s: seq<Coordinate>)
    requires Ascending(s) && s != []
    ensures forall x :: x in s[..|s| - 1] <==> x in s && x != s[|s| - 1]
    ensures forall x | x in s :: x == s[|s| - 1] || Before(x, s[|s| - 1])
  {
    forall x | x in s && x != s[|s| - 1] ensures x in s[..|s| - 1] && Before(x, s[|s| - 1]) {
      var k :| 0 <= k < |s| && s[k] == x;
      assert s[..|s| - 1][k] == x;
    }
  }

  /** An ascending listing is determined by its members. */
  lemma {:induction false} AscendingIsUnique(s: seq<Coordinate>, t: seq<Coordinate>)
    requires Ascending(s) && Ascending(t) && forall x :: x in s <==> x in t
    ensures s == t
  {
    assert s == [] || s[0] in t;
    assert t == [] || t[0] in s;
    if s != [] {
      InitMembers(s);
      InitMembers(t);
      assert s[|s| - 1] in t && t[|t| - 1] in s;
      var last := s[|s| - 1];
      assert last == t[|t| - 1];
      var initS, initT := s[..|s| - 1], t[..|t| - 1];
      forall x ensures x in initS <==> x in initT {
        assert x in initS <==> x in s && x != last;
        assert x in initT <==> x in t && x != last;
      }
      AscendingIsUnique(initS, initT);
      assert s == initS + [last] && t == initT + [last];
    }
  }

  /** An ascending listing of a set is its sorted listing. */
  lemma SortedIsUnique(all: set<Coordinate>, s: seq<Coordinate>)
    requires Ascending(s) && forall x :: x in s <==> x in all
    ensures s == Sorted(all)
  {
    SortedAscends(all);
    AscendingIsUnique(s, Sorted(all));
  }

  /** In an ascending listing, the members before s[k] are the first k. */
  lemma PrefixIsBefore(s: seq<Coordinate>, k: nat)
    requires Ascending(s) && k < |s|
    ensures forall x :: x in s[..k] <==> x in s && Before(x, s[k])
    ensures forall x :: x in s[k + 1..] <==> x in s && Before(s[k], x)
  {
    forall x | x in s && Before(x, s[k]) ensures x in s[..k] {
      var j :| 0 <= j < |s| && s[j] == x;
      assert s[..k][j] == x;
    }
    forall x | x in s && Before(s[k], x) ensures x in s[k + 1..] {
      var j :| 0 <= j < |s| && s[j] == x;
      assert s[k + 1..][j - k - 1] == x;
    }
  }

  ghost function Older(all: set<Coordinate>, cursor: Option<Coordinate>): set<Coordinate> {
    set x | x in all && (cursor.Some? ==> Before(x, cursor.value))
  }

  ghost function Newer(all: set<Coordinate>, cursor: Coordinate): set<Coordinate> {
    set x | x in all && Before(cursor, x)
  }

  // ---- one page ------------------------------------------------------------------------------------------

  datatype Page = Page(messages: seq<Coordinate>, hasMoreBefore: bool, hasMoreAfter: bool)

  function Least(a: nat, b: nat): nat { if a < b then a else b }

  /** The newest `limit` messages before the cursor, oldest first. */
  ghost function PageBefore(all: set<Coordinate>, cursor: Option<Coordinate>, limit: nat): Page {
    var older := Sorted(Older(all, cursor));
    var messages := older[|older| - Least(limit, |older|)..];
    Page(messages, |older| > limit, messages != [] && Newer(all, messages[|messages| - 1]) != {})
  }

  /** The oldest `limit` messages after the cursor, oldest first. */
  ghost function PageAfter(all: set<Coordinate>, cursor: Coordinate, limit: nat): Page {
    var newer := Sorted(Newer(all, cursor));
    var messages := newer[..Least(limit, |newer|)];
    Page(messages, messages != [] && Older(all, Some(messages[0])) != {}, |newer| > limit)
  }

  datatype PageError = TwoCursors | BadCursor

  /** The ancestry branch of get_messages. */
  ghost function GetMessages(x: Texts, all: set<Coordinate>, limit: nat, before: Option<string>, after: Option<string>)
    : Result<Page, PageError>
  {
    if before.Some? && after.Some? then Err(TwoCursors)
    else if after.Some? then
      var c := DecodeCursor(x, after.value);
      if c.None? then Err(BadCursor) else Ok(PageAfter(all, c.value, limit))
    else if before.Some? then
      var c := DecodeCursor(x, before.value);
      if c.None? then Err(BadCursor) else Ok(PageBefore(all, c, limit))
    else Ok(PageBefore(all, None, limit))
  }

  ghost predicate FlagsExact(all: set<Coordinate>, p: Page)
    requires p.messages != []
  {
    && (p.hasMoreBefore <==> exists x :: x in all && Before(x, p.messages[0]))
    && (p.hasMoreAfter <==> exists x :: x in all && Before(p.messages[|p.messages| - 1], x))
  }

  lemma SetsOnEachSide(all: set<Coordinate>, c: Coordinate)
    ensures Older(all, Some(c)) != {} <==> exists x :: x in all && Before(x, c)
    ensures Newer(all, c) != {} <==> exists x :: x in all && Before(c, x)
  {
    if x :| x in all && Before(x, c) { assert x in Older(all, Some(c)); }
    if x :| x in all && Before(c, x) { assert x in Newer(all, c); }
    if Older(all, Some(c)) != {} { var x :| x in Older(all, Some(c)); }
    if Newer(all, c) != {} { var x :| x in Newer(all, c); }
  }

  /** On a page with messages both flags say exactly whether something lies beyond that end. */
  lemma FlagsOfOlderPage(all: set<Coordinate>, cursor: Option<Coordinate>, limit: nat)
    requires PageBefore(all, cursor, limit).messages != []
    ensures FlagsExact(all, PageBefore(all, cursor, limit))
  {
    var older, p := Sorted(Older(all, cursor)), PageBefore(all, cursor, limit);
    var k := |older| - |p.messages|;
    assert p.messages[0] == older[k] && older[k] in older;
    SortedAscends(Older(all, cursor));
    PrefixIsBefore(older, k);
    OlderStill(all, cursor, older[k]);
    SetsOnEachSide(all, older[k]);
    SetsOnEachSide(all, p.messages[|p.messages| - 1]);
    assert k > 0 ==> older[0] in older[..k];
    assert k == 0 ==> older[..k] == [];
  }

  /** Beyond the k-th message after a cursor lies the rest of them. */
  lemma NewerThanKth(all: set<Coordinate>, c: Coordinate, newer: seq<Coordinate>, k: nat)
    requires newer == Sorted(Newer(all, c)) && k < |newer|
    ensures |newer| > k + 1 <==> exists x :: x in all && Before(newer[k], x)
  {
    SortedAscends(Newer(all, c));
    PrefixIsBefore(newer, k);
    assert newer[k] in newer;
    if k + 1 < |newer| {
      assert newer[k + 1..][0] == newer[k + 1] && newer[k + 1] in newer[k + 1..];
    }
    if x :| x in all && Before(newer[k], x) {
      assert x in newer && x in newer[k + 1..];
    }
  }

  lemma FlagsOfNewerPage(all: set<Coordinate>, c: Coordinate, limit: nat)
    requires PageAfter(all, c, limit).messages != []
    ensures FlagsExact(all, PageAfter(all, c, limit))
  {
    var newer, p := Sorted(Newer(all, c)), PageAfter(all, c, limit);
    NewerThanKth(all, c, newer, |p.messages| - 1);
    SetsOnEachSide(all, p.messages[0]);
  }

  /** What the flags of a page asked for by cursor ought to say; an empty page is judged from the cursor itself. */
  ghost predicate FlagsRight(all: set<Coordinate>, c: Coordinate, p: Page) {
    if p.messages != [] then FlagsExact(all, p)
    else
      && (p.hasMoreBefore <==> exists x :: x in all && !Before(c, x))
      && (p.hasMoreAfter <==> exists x :: x in all && !Before(x, c))
  }

  /** A page has messages exactly if there are any on its side of the cursor. */
  lemma PagesHaveMessages(all: set<Coordinate>, c: Coordinate, limit: nat)
    requires limit > 0
    ensures PageAfter(all, c, limit).messages != [] <==> exists x :: x in all && Before(c, x)
    ensures PageBefore(all, Some(c), limit).messages != [] <==> exists x :: x in all && Before(x, c)
  {
    SetsOnEachSide(all, c);
    assert |Sorted(Newer(all, c))| == |Newer(all, c)| && |Sorted(Older(all, Some(c)))| == |Older(all, Some(c))|;
  }

  lemma FlagsRightAfter(all: set<Coordinate>, c: Coordinate, limit: nat)
    requires limit > 0
    ensures FlagsRight(all, c, PageAfter(all, c, limit)) <==> all == {} || PageAfter(all, c, limit).messages != []
  {
    if PageAfter(all, c, limit).messages != [] {
      FlagsOfNewerPage(all, c, limit);
    } else if all != {} {
      PagesHaveMessages(all, c, limit);
      var x :| x in all;
      assert !Before(c, x);
    }
  }

  lemma FlagsRightBefore(all: set<Coordinate>, c: Coordinate, limit: nat)
    requires limit > 0
    ensures FlagsRight(all, c, PageBefore(all, Some(c), limit))
            <==> all == {} || PageBefore(all, Some(c), limit).messages != []
  {
    if PageBefore(all, Some(c), limit).messages != [] {
      FlagsOfOlderPage(all, Some(c), limit);
    } else if all != {} {
      PagesHaveMessages(all, c, limit);
      var x :| x in all;
      assert !Before(x, c);
    }
  }

  /**
   An empty page says false to both ends. So the flags of a page asked for by cursor are right exactly if the ancestry
   has a message beyond the cursor, or none at all.
   */
  lemma FlagsRightExactly(all: set<Coordinate>, c: Coordinate, limit: nat)
    requires limit > 0
    ensures FlagsRight(all, c, PageAfter(all, c, limit)) <==> all == {} || exists x :: x in all && Before(c, x)
    ensures FlagsRight(all, c, PageBefore(all, Some(c), limit)) <==> all == {} || exists x :: x in all && Before(x, c)
  {
    PagesHaveMessages(all, c, limit);
    FlagsRightAfter(all, c, limit);
    FlagsRightBefore(all, c, limit);
  }

  lemma NothingAfter(all: set<Coordinate>, c: Coordinate, limit: nat)
    requires Newer(all, c) == {}
    ensures PageAfter(all, c, limit) == Page([], false, false)
  {
    assert |Sorted({})| == 0;
  }

  /** Asking for what comes after the newest message: the answer denies the message it was asked with. */
  lemma AfterTheNewest(x: Texts, all: set<Coordinate>, limit: nat)
    requires Lawful(x) && limit > 0 && all != {}
    ensures GetMessages(x, all, limit, None, Some(EncodeCursor(x, Last(all)))) == Ok(Page([], false, false))
    ensures !FlagsRight(all, Last(all), Page([], false, false))
  {
    var newest := Last(all);
    CursorRoundTrip(x, newest);
    assert forall y | y in all :: !Before(newest, y);
    SetsOnEachSide(all, newest);
    NothingAfter(all, newest, limit);
  }

  // ---- following the cursors -----------------------------------------------------------------------------------

  /** Follow before_cursor, the cursor of each page's oldest message, while has_more_before holds, and
      put the pages together oldest first. */
  ghost function WalkBack(x: Texts, all: set<Coordinate>, cursor: Option<string>, limit: nat): seq<Coordinate>
    requires Lawful(x) && limit > 0
    decreases |Older(all, Here(x, cursor))|
  {
    var r := GetMessages(x, all, limit, cursor, None);
    if r.Err? then []
    else if !r.value.hasMoreBefore then r.value.messages
    else
      StepIsSmaller(x, all, cursor, limit);
      WalkBack(x, all, Some(EncodeCursor(x, r.value.messages[0])), limit) + r.value.messages
  }

  /** What is older than the k-th oldest message is the first k. */
  lemma OlderPrefix(all: set<Coordinate>, cursor: Option<Coordinate>, older: seq<Coordinate>, k: nat)
    requires older == Sorted(Older(all, cursor)) && k < |older|
    ensures older[..k] == Sorted(Older(all, Some(older[k])))
  {
    SortedAscends(Older(all, cursor));
    assert older[k] in older;
    OlderStill(all, cursor, older[k]);
    PrefixIsBefore(older, k);
    forall x ensures x in older[..k] <==> x in Older(all, Some(older[k])) {
      assert x in older[..k] <==> x in older && Before(x, older[k]);
    }
    SortedIsUnique(Older(all, Some(older[k])), older[..k]);
  }

  /** What is older than the oldest message of a page is what the page left out. */
  lemma OlderThanPage(all: set<Coordinate>, cursor: Option<Coordinate>, limit: nat)
    requires limit > 0 && PageBefore(all, cursor, limit).hasMoreBefore
    ensures var older := Sorted(Older(all, cursor));
            var p := PageBefore(all, cursor, limit);
            p.messages != [] && Sorted(Older(all, Some(p.messages[0]))) == older[..|older| - limit]
  {
    var older := Sorted(Older(all, cursor));
    var k := |older| - limit;
    var oldest := older[k];
    OlderPrefix(all, cursor, older, k);
    assert PageBefore(all, cursor, limit).messages[0] == oldest;
    assert older[..k] == Sorted(Older(all, Some(oldest)));
  }

  lemma OlderStill(all: set<Coordinate>, cursor: Option<Coordinate>, c: Coordinate)
    requires c in Older(all, cursor)
    ensures forall x :: x in Older(all, Some(c)) <==> x in Older(all, cursor) && Before(x, c)
  {
  }

  lemma StepIsSmaller(x: Texts, all: set<Coordinate>, cursor: Option<string>, limit: nat)
    requires Lawful(x) && limit > 0
    requires var r := GetMessages(x, all, limit, cursor, None); r.Ok? && r.value.hasMoreBefore
    ensures var here := Here(x, cursor);
            var oldest := GetMessages(x, all, limit, cursor, None).value.messages[0];
            DecodeCursor(x, EncodeCursor(x, oldest)) == Some(oldest)
            && |Older(all, Some(oldest))| < |Older(all, here)|
  {
    var here := Here(x, cursor);
    OlderThanPage(all, here, limit);
    CursorRoundTrip(x, PageBefore(all, here, limit).messages[0]);
  }

  ghost function Here(x: Texts, cursor: Option<string>): Option<Coordinate> {
    if cursor.Some? then DecodeCursor(x, cursor.value) else None
  }

  lemma OlderPageJoins(all: set<Coordinate>, cursor: Option<Coordinate>, limit: nat)
    requires limit > 0 && PageBefore(all, cursor, limit).hasMoreBefore
    ensures var p := PageBefore(all, cursor, limit);
            p.messages != [] && Sorted(Older(all, Some(p.messages[0]))) + p.messages == Sorted(Older(all, cursor))
  {
    OlderThanPage(all, cursor, limit);
    JoinsAt(Sorted(Older(all, cursor)), |Sorted(Older(all, cursor))| - limit);
  }

  /** The pages put together are everything older than where the walk began, in order, with no gap and
      no repeat, for every page size. */
  lemma {:induction false} WalkBackIsComplete(x: Texts, all: set<Coordinate>, cursor: Option<string>, limit: nat)
    requires Lawful(x) && limit > 0
    requires cursor.Some? ==> DecodeCursor(x, cursor.value).Some?
    ensures WalkBack(x, all, cursor, limit) == Sorted(Older(all, Here(x, cursor)))
    decreases |Older(all, Here(x, cursor))|
  {
    var p := PageBefore(all, Here(x, cursor), limit);
    assert GetMessages(x, all, limit, cursor, None) == Ok(p);
    if p.hasMoreBefore {
      StepIsSmaller(x, all, cursor, limit);
      OlderPageJoins(all, Here(x, cursor), limit);
      var next := Some(EncodeCursor(x, p.messages[0]));
      WalkBackIsComplete(x, all, next, limit);
      assert WalkBack(x, all, cursor, limit) == WalkBack(x, all, next, limit) + p.messages;
    }
  }

  lemma JoinsAt(s: seq<Coordinate>, k: nat)
    requires k <= |s|
    ensures s[..k] + s[k..] == s
  {
  }

  /** From the newest page back to the first message. */
  lemma {:induction false} WholeAncestryIsWalked(x: Texts, all: set<Coordinate>, limit: nat)
    requires Lawful(x) && limit > 0
    ensures WalkBack(x, all, None, limit) == Sorted(all)
  {
    WalkBackIsComplete(x, all, None, limit);
    assert Older(all, None) == all;
  }

  // ---- the other way -------------------------------------------------------------------------------------------

  ghost function Newest(p: Page): Coordinate
    requires p.messages != []
  {
    p.messages[|p.messages| - 1]
  }

  /** Follow after_cursor, the cursor of each page's newest message, while has_more_after holds. */
  ghost function WalkOn(x: Texts, all: set<Coordinate>, cursor: string, limit: nat): seq<Coordinate>
    requires Lawful(x) && limit > 0
    decreases Ahead(x, all, cursor)
  {
    var r := GetMessages(x, all, limit, None, Some(cursor));
    if r.Err? then []
    else if !r.value.hasMoreAfter then r.value.messages
    else
      StepOnIsSmaller(x, all, DecodeCursor(x, cursor).value, limit);
      r.value.messages + WalkOn(x, all, EncodeCursor(x, Newest(r.value)), limit)
  }

  ghost function Ahead(x: Texts, all: set<Coordinate>, cursor: string): nat {
    var c := DecodeCursor(x, cursor);
    if c.Some? then |Newer(all, c.value)| else 0
  }

  lemma SuffixAscends(s: seq<Coordinate>, k: nat)
    requires Ascending(s) && k <= |s|
    ensures Ascending(s[k..])
  {
  }

  /** In an ascending listing of a set, what is newer than the k-th is what follows it. */
  lemma SuffixIsNewer(all: set<Coordinate>, s: seq<Coordinate>, k: nat)
    requires Ascending(s) && k < |s| && forall x :: x in s <==> x in all
    ensures s[k + 1..] == Sorted(Newer(all, s[k]))
  {
    PrefixIsBefore(s, k);
    SuffixAscends(s, k + 1);
    forall x ensures x in s[k + 1..] <==> x in Newer(all, s[k]) {
      assert x in s[k + 1..] <==> x in s && Before(s[k], x);
    }
    SortedIsUnique(Newer(all, s[k]), s[k + 1..]);
  }

  lemma NewerStill(all: set<Coordinate>, c: Coordinate, d: Coordinate)
    requires d in Newer(all, c)
    ensures Newer(Newer(all, c), d) == Newer(all, d) && |Newer(all, d)| < |Newer(all, c)|
  {
    assert Newer(all, d) < Newer(all, c);
    SmallerSet(Newer(all, d), Newer(all, c));
  }

  lemma SmallerSet(a: set<Coordinate>, b: set<Coordinate>)
    requires a < b
    ensures |a| < |b|
  {
    assert b == a + (b - a) && b - a != {};
  }

  /** What is newer than the newest message of a page is what the page left out. */
  lemma NewerThanPage(all: set<Coordinate>, c: Coordinate, limit: nat)
    requires limit > 0 && PageAfter(all, c, limit).hasMoreAfter
    ensures var newer, p := Sorted(Newer(all, c)), PageAfter(all, c, limit);
            |p.messages| == limit < |newer| && Newest(p) in Newer(all, c)
            && Sorted(Newer(all, Newest(p))) == newer[limit..]
  {
    var newer := Sorted(Newer(all, c));
    var last := newer[limit - 1];
    assert last in newer;
    SortedAscends(Newer(all, c));
    SuffixIsNewer(Newer(all, c), newer, limit - 1);
    NewerStill(all, c, last);
  }

  lemma StepOnIsSmaller(x: Texts, all: set<Coordinate>, c: Coordinate, limit: nat)
    requires Lawful(x) && limit > 0 && PageAfter(all, c, limit).hasMoreAfter
    ensures var p := PageAfter(all, c, limit);
            && p.messages != [] && DecodeCursor(x, EncodeCursor(x, Newest(p))) == Some(Newest(p))
            && |Newer(all, Newest(p))| < |Newer(all, c)|
  {
    NewerThanPage(all, c, limit);
    NewerStill(all, c, Newest(PageAfter(all, c, limit)));
    CursorRoundTrip(x, Newest(PageAfter(all, c, limit)));
  }

  lemma NewerPageJoins(all: set<Coordinate>, c: Coordinate, limit: nat)
    requires limit > 0 && PageAfter(all, c, limit).hasMoreAfter
    ensures var p := PageAfter(all, c, limit);
            p.messages != [] && p.messages + Sorted(Newer(all, Newest(p))) == Sorted(Newer(all, c))
  {
    NewerThanPage(all, c, limit);
    JoinsAt(Sorted(Newer(all, c)), limit);
  }

  /** The pages put together are everything newer than the cursor, in order, for every page size. */
  lemma {:induction false} WalkOnIsComplete(x: Texts, all: set<Coordinate>, cursor: string, limit: nat)
    requires Lawful(x) && limit > 0 && DecodeCursor(x, cursor).Some?
    ensures WalkOn(x, all, cursor, limit) == Sorted(Newer(all, DecodeCursor(x, cursor).value))
    decreases Ahead(x, all, cursor)
  {
    var c := DecodeCursor(x, cursor).value;
    var p := PageAfter(all, c, limit);
    assert GetMessages(x, all, limit, None, Some(cursor)) == Ok(p);
    if p.hasMoreAfter {
      StepOnIsSmaller(x, all, c, limit);
      NewerPageJoins(all, c, limit);
      var next := EncodeCursor(x, Newest(p));
      WalkOnIsComplete(x, all, next, limit);
      assert WalkOn(x, all, cursor, limit) == p.messages + WalkOn(x, all, next, limit);
    }
  }

  lemma AscendTogether(a: seq<Coordinate>, c: Coordinate, b: seq<Coordinate>)
    requires Ascending(a) && Ascending(b)
    requires (forall x | x in a :: Before(x, c)) && (forall x | x in b :: Before(c, x))
    ensures Ascending(a + [c] + b) && forall x :: x in a + [c] + b <==> x in a || x == c || x in b
  {
    var s := a + [c] + b;
    forall i, j | 0 <= i < j < |s| ensures Before(s[i], s[j]) {
      assert i < |a| ==> s[i] in a;
      assert j > |a| ==> s[j] in b;
    }
  }

  lemma SplitsAt(all: set<Coordinate>, c: Coordinate)
    requires c in all
    ensures Sorted(Older(all, Some(c))) + [c] + Sorted(Newer(all, c)) == Sorted(all)
  {
    var older, newer := Sorted(Older(all, Some(c))), Sorted(Newer(all, c));
    SortedAscends(Older(all, Some(c)));
    SortedAscends(Newer(all, c));
    AscendTogether(older, c, newer);
    SortedIsUnique(all, older + [c] + newer);
  }

  /** From any message of the ancestry, the walk back, the message and the walk on are the whole of it. */
  lemma TwoWalksMeet(x: Texts, all: set<Coordinate>, c: Coordinate, limit: nat)
    requires Lawful(x) && limit > 0 && c in all
    ensures WalkBack(x, all, Some(EncodeCursor(x, c)), limit) + [c] + WalkOn(x, all, EncodeCursor(x, c), limit)
            == Sorted(all)
  {
    CursorRoundTrip(x, c);
    WalkBackIsComplete(x, all, Some(EncodeCursor(x, c)), limit);
    WalkOnIsComplete(x, all, EncodeCursor(x, c), limit);
    SplitsAt(all, c);
  }

  // ---- what pages and walks say of instants ------------------------------------------------------------------

  /** In the order of creation, and in the order of identifiers among messages of one instant. */
  ghost predicate InTimeOrder(s: seq<Coordinate>) {
    forall i, j | 0 <= i < j < |s| ::
      s[i].created < s[j].created || (s[i].created == s[j].created && s[i].id < s[j].id)
  }

  lemma SortedInTimeOrder(all: set<Coordinate>)
    ensures InTimeOrder(Sorted(all))
  {
    SortedAscends(all);
  }

  lemma PartInTimeOrder(s: seq<Coordinate>, i: nat, j: nat)
    requires InTimeOrder(s) && i <= j <= |s|
    ensures InTimeOrder(s[i..j])
  {
  }

  /** Every page of the route is in time order. */
  lemma PagesInTimeOrder(x: Texts, all: set<Coordinate>, limit: nat, before: Option<string>, after: Option<string>)
    ensures var r := GetMessages(x, all, limit, before, after); r.Ok? ==> InTimeOrder(r.value.messages)
  {
    if before.None? || after.None? {
      if after.Some? {
        var c := DecodeCursor(x, after.value);
        if c.Some? { NewerPageInTimeOrder(all, c.value, limit); }
      } else {
        OlderPageInTimeOrder(all, Here(x, before), limit);
      }
    }
  }

  lemma OlderPageInTimeOrder(all: set<Coordinate>, cursor: Option<Coordinate>, limit: nat)
    ensures InTimeOrder(PageBefore(all, cursor, limit).messages)
  {
    var older := Sorted(Older(all, cursor));
    SortedInTimeOrder(Older(all, cursor));
    PartInTimeOrder(older, |older| - Least(limit, |older|), |older|);
    assert older[|older| - Least(limit, |older|)..] == older[|older| - Least(limit, |older|)..|older|];
  }

  lemma NewerPageInTimeOrder(all: set<Coordinate>, c: Coordinate, limit: nat)
    ensures InTimeOrder(PageAfter(all, c, limit).messages)
  {
    var newer := Sorted(Newer(all, c));
    SortedInTimeOrder(Newer(all, c));
    PartInTimeOrder(newer, 0, Least(limit, |newer|));
  }

  lemma PartsHoldTheirs(s: seq<Coordinate>, k: nat)
    requires k <= |s|
    ensures forall i | k <= i < |s| :: s[i] in s[k..]
    ensures forall i | 0 <= i < k :: s[i] in s[..k]
  {
    forall i | k <= i < |s| ensures s[i] in s[k..] {
      assert s[k..][i - k] == s[i];
    }
    forall i | 0 <= i < k ensures s[i] in s[..k] {
      assert s[..k][i] == s[i];
    }
  }

  /** What precedes the last part of a listing in time order is not newer than that part. */
  lemma LastPartIsNewest(s: seq<Coordinate>, k: nat)
    requires InTimeOrder(s) && k <= |s|
    ensures forall m | m in s[k..] :: m in s
    ensures forall m, out | m in s[k..] && out in s && out !in s[k..] :: k > 0 && out.created <= m.created
  {
    PartsHoldTheirs(s, k);
    forall m, out | m in s[k..] && out in s && out !in s[k..] ensures k > 0 && out.created <= m.created {
      var j :| 0 <= j < |s[k..]| && s[k..][j] == m;
      var i :| 0 <= i < |s| && s[i] == out;
    }
  }

  /** What follows the first part of a listing in time order is not older than that part. */
  lemma FirstPartIsOldest(s: seq<Coordinate>, k: nat)
    requires InTimeOrder(s) && k <= |s|
    ensures forall m | m in s[..k] :: m in s
    ensures forall m, out | m in s[..k] && out in s && out !in s[..k] :: k < |s| && m.created <= out.created
  {
    PartsHoldTheirs(s, k);
    forall m, out | m in s[..k] && out in s && out !in s[..k] ensures k < |s| && m.created <= out.created {
      var j :| 0 <= j < |s[..k]| && s[..k][j] == m;
      var i :| 0 <= i < |s| && s[i] == out;
    }
  }

  /** A page before a cursor shows messages that are not newer than it, and what it leaves out of these is not
      newer than anything it shows. It is as long as it can be. */
  lemma OlderPageIsTheNewest(all: set<Coordinate>, cursor: Option<Coordinate>, limit: nat)
    ensures var p := PageBefore(all, cursor, limit);
            && |p.messages| <= limit
            && (forall m | m in p.messages :: m in all && (cursor.Some? ==> m.created <= cursor.value.created))
            && (forall m, out | m in p.messages && out in all && out !in p.messages
                                && (cursor.Some? ==> out.created < cursor.value.created) ::
                  |p.messages| == limit && out.created <= m.created)
  {
    var older, p := Sorted(Older(all, cursor)), PageBefore(all, cursor, limit);
    SortedInTimeOrder(Older(all, cursor));
    LastPartIsNewest(older, |older| - Least(limit, |older|));
    forall m | m in p.messages ensures m in Older(all, cursor) {}
    forall m, out | m in p.messages && out in Older(all, cursor) && out !in p.messages
      ensures |p.messages| == limit && out.created <= m.created
    {
      assert out in older;
    }
  }

  /** A page after a cursor shows messages that are not older than it, and what it leaves out of these is not
      older than anything it shows. */
  lemma NewerPageIsTheOldest(all: set<Coordinate>, c: Coordinate, limit: nat)
    ensures var p := PageAfter(all, c, limit);
            && |p.messages| <= limit
            && (forall m | m in p.messages :: m in all && c.created <= m.created)
            && (forall m, out | m in p.messages && out in all && out !in p.messages && c.created < out.created ::
                  |p.messages| == limit && m.created <= out.created)
  {
    var newer, p := Sorted(Newer(all, c)), PageAfter(all, c, limit);
    SortedInTimeOrder(Newer(all, c));
    FirstPartIsOldest(newer, Least(limit, |newer|));
    forall m | m in p.messages ensures m in Newer(all, c) {}
    forall m, out | m in p.messages && out in Newer(all, c) && out !in p.messages
      ensures |p.messages| == limit && m.created <= out.created
    {
      assert out in newer;
    }
  }

  /** Both walks are in time order: the one back shows what is before its cursor, the one on what is after it,
      each message once. */
  lemma WalksInTimeOrder(x: Texts, all: set<Coordinate>, c: Coordinate, limit: nat)
    requires Lawful(x) && limit > 0
    ensures InTimeOrder(WalkBack(x, all, None, limit))
    ensures InTimeOrder(WalkBack(x, all, Some(EncodeCursor(x, c)), limit))
    ensures InTimeOrder(WalkOn(x, all, EncodeCursor(x, c), limit))
    ensures forall m | m in all ::
              && (m.created < c.created ==> m in WalkBack(x, all, Some(EncodeCursor(x, c)), limit))
              && (m.created > c.created ==> m in WalkOn(x, all, EncodeCursor(x, c), limit))
    ensures forall m :: m in WalkBack(x, all, None, limit) <==> m in all
  {
    CursorRoundTrip(x, c);
    WalkBackIsComplete(x, all, None, limit);
    WalkBackIsComplete(x, all, Some(EncodeCursor(x, c)), limit);
    WalkOnIsComplete(x, all, EncodeCursor(x, c), limit);
    SortedInTimeOrder(Older(all, None));
    SortedInTimeOrder(Older(all, Some(c)));
    SortedInTimeOrder(Newer(all, c));
  }
}
