/** Fire pixels folded into one observation per cell and acquisition day. */
module FireCells {
  // Two rooms' overlapping boxes and several satellites' overpasses land in one table. Each cell keeps its pixel count,
  // strongest readings, best confidence, satellites and newest fix.

  import opened Common

  /** A pixel's day and the text of its rounded coordinates. */
  datatype Key = Key(day: string, cell: string)

  /**
   * One row of the feed. `cell` is absent when a coordinate is not a number, `observed` when the acquisition time
   * does not parse; `confidence` is the first letter, in lower case, or empty.
   */
  datatype Pixel = Pixel(cell: Option<string>, day: string, confidence: string, frp: Option<real>,
                         brightness: Option<real>, satellite: string, observed: Option<int>)

  datatype Observation = Observation(key: Key, pixels: nat, frp: real, brightness: real, confidence: string,
                                     satellites: set<string>, observed: Option<int>)

  function Rank(confidence: string): nat {
    if confidence == "h" then 3 else if confidence == "n" then 2 else if confidence == "l" then 1 else 0
  }

  function Word(confidence: string): string {
    if confidence == "h" then "high" else if confidence == "n" then "nominal"
    else if confidence == "l" then "low" else "unknown"
  }

  function OrZero(x: Option<real>): real {
    if x.Some? then x.value else 0.0
  }

  function Max(a: real, b: real): real {
    if b > a then b else a
  }

  function Placed(p: Pixel): Option<Key> {
    if p.cell.Some? then Some(Key(p.day, p.cell.value)) else None
  }

  /** The rows of one cell and day, in their order. */
  function Group(rows: seq<Pixel>, k: Key): seq<Pixel> {
    if rows == [] then []
    else if Placed(rows[0]) == Some(k) then [rows[0]] + Group(rows[1..], k)
    else Group(rows[1..], k)
  }

  // ---------------------------------------------------------------- what an observation says of its rows

  predicate Strongest(x: real, readings: seq<real>) {
    x in readings && forall y <- readings :: y <= x
  }

  function Frps(group: seq<Pixel>): seq<real> {
    seq(|group|, i requires 0 <= i < |group| => OrZero(group[i].frp))
  }

  function Brightnesses(group: seq<Pixel>): seq<real> {
    seq(|group|, i requires 0 <= i < |group| => OrZero(group[i].brightness))
  }

  /** The letter kept: the first of the best rank. */
  ghost predicate FirstBest(letter: string, group: seq<Pixel>) {
    exists i {:trigger group[i]} :: 0 <= i < |group| && group[i].confidence == letter && IsFirstBest(group, i)
  }

  predicate IsFirstBest(group: seq<Pixel>, i: nat)
    requires i < |group|
  {
    && (forall j :: 0 <= j < i ==> Rank(group[j].confidence) < Rank(group[i].confidence))
    && (forall j :: 0 <= j < |group| ==> Rank(group[j].confidence) <= Rank(group[i].confidence))
  }

  /** The newest fix, when any row has one. */
  ghost predicate Newest(observed: Option<int>, group: seq<Pixel>) {
    match observed
    case None => forall p <- group :: p.observed.None?
    case Some(t) => (exists p :: p in group && p.observed == Some(t))
                    && forall p <- group :: p.observed.Some? ==> p.observed.value <= t
  }

  ghost predicate Summarizes(o: Observation, k: Key, group: seq<Pixel>) {
    && o.key == k
    && o.pixels == |group|
    && Strongest(o.frp, Frps(group))
    && Strongest(o.brightness, Brightnesses(group))
    && FirstBest(o.confidence, group)
    && (forall s :: s in o.satellites <==> s != "" && exists p :: p in group && p.satellite == s)
    && Newest(o.observed, group)
  }

  // ---------------------------------------------------------------- the fold

  function First(p: Pixel, k: Key): Observation {
    Observation(k, 1, OrZero(p.frp), OrZero(p.brightness), p.confidence,
                if p.satellite != "" then {p.satellite} else {}, p.observed)
  }

  function Absorb(o: Observation, p: Pixel): Observation {
    o.(pixels := o.pixels + 1,
       frp := Max(o.frp, OrZero(p.frp)),
       brightness := Max(o.brightness, OrZero(p.brightness)),
       confidence := if Rank(p.confidence) > Rank(o.confidence) then p.confidence else o.confidence,
       satellites := if p.satellite != "" then o.satellites + {p.satellite} else o.satellites,
       observed := if p.observed.Some? && (o.observed.None? || p.observed.value > o.observed.value) then p.observed
                   else o.observed)
  }

  lemma FirstSummarizes(p: Pixel, k: Key)
    ensures Summarizes(First(p, k), k, [p])
  {
    assert Frps([p]) == [OrZero(p.frp)] && Brightnesses([p]) == [OrZero(p.brightness)];
    assert [p][0] == p && IsFirstBest([p], 0);
    assert p in [p];
  }

  lemma FirstBestAbsorbs(letter: string, group: seq<Pixel>, p: Pixel)
    requires FirstBest(letter, group)
    ensures FirstBest(if Rank(p.confidence) > Rank(letter) then p.confidence else letter, group + [p])
  {
    var i :| 0 <= i < |group| && group[i].confidence == letter && IsFirstBest(group, i);
    var more := group + [p];
    if Rank(p.confidence) > Rank(letter) {
      assert more[|group|] == p && IsFirstBest(more, |group|);
    } else {
      assert more[i] == group[i] && IsFirstBest(more, i);
    }
  }

  lemma NewestAbsorbs(o: Observation, group: seq<Pixel>, p: Pixel)
    requires Newest(o.observed, group)
    ensures Newest(Absorb(o, p).observed, group + [p])
  {
    var more := group + [p];
    assert p in more;
    if o.observed.Some? {
      var q :| q in group && q.observed == o.observed;
      assert q in more;
    }
  }

  lemma StrongestGrows(x: real, readings: seq<real>, y: real)
    requires Strongest(x, readings)
    ensures Strongest(Max(x, y), readings + [y])
  {
  }

  lemma AbsorbKeepsReadings(o: Observation, group: seq<Pixel>, p: Pixel)
    requires Strongest(o.frp, Frps(group)) && Strongest(o.brightness, Brightnesses(group))
    ensures Strongest(Absorb(o, p).frp, Frps(group + [p]))
    ensures Strongest(Absorb(o, p).brightness, Brightnesses(group + [p]))
  {
    assert Frps(group + [p]) == Frps(group) + [OrZero(p.frp)];
    assert Brightnesses(group + [p]) == Brightnesses(group) + [OrZero(p.brightness)];
    StrongestGrows(o.frp, Frps(group), OrZero(p.frp));
    StrongestGrows(o.brightness, Brightnesses(group), OrZero(p.brightness));
  }

  lemma AbsorbSummarizes(o: Observation, k: Key, group: seq<Pixel>, p: Pixel)
    requires Summarizes(o, k, group)
    ensures Summarizes(Absorb(o, p), k, group + [p])
  {
    AbsorbKeepsReadings(o, group, p);
    FirstBestAbsorbs(o.confidence, group, p);
    NewestAbsorbs(o, group, p);
  }

  ghost predicate NoRepeat(keys: seq<Key>) {
    forall i, j :: 0 <= i < j < |keys| ==> keys[i] != keys[j]
  }

  /** A table of cells that accounts for the rows: a key for each nonempty group, listed once, and summarized. */
  ghost predicate Accounts(cells: map<Key, Observation>, order: seq<Key>, rows: seq<Pixel>) {
    && NoRepeat(order)
    && (forall k :: k in order <==> k in cells)
    && (forall k {:trigger k in cells} :: k in cells <==> Group(rows, k) != [])
    && (forall k {:trigger cells[k]} :: k in cells ==> Summarizes(cells[k], k, Group(rows, k)))
  }

  lemma {:induction false} GroupStep(rows: seq<Pixel>, p: Pixel, k: Key)
    ensures Group(rows + [p], k) == if Placed(p) == Some(k) then Group(rows, k) + [p] else Group(rows, k)
  {
    if rows == [] {
      assert rows + [p] == [p];
    } else {
      GroupStep(rows[1..], p, k);
      assert (rows + [p])[1..] == rows[1..] + [p];
    }
  }

  lemma OtherGroups(rows: seq<Pixel>, p: Pixel, k: Key)
    requires Placed(p) == Some(k)
    ensures forall k' :: k' != k ==> Group(rows + [p], k') == Group(rows, k')
  {
    forall k' | k' != k ensures Group(rows + [p], k') == Group(rows, k') {
      GroupStep(rows, p, k');
    }
  }

  lemma OpenedGroup(rows: seq<Pixel>, p: Pixel, k: Key)
    requires Placed(p) == Some(k) && Group(rows, k) == []
    ensures Group(rows + [p], k) == [p]
  {
    GroupStep(rows, p, k);
  }

  lemma RowJoinsCell(cells: map<Key, Observation>, order: seq<Key>, rows: seq<Pixel>, p: Pixel, k: Key)
    requires Accounts(cells, order, rows) && Placed(p) == Some(k) && k in cells
    ensures Accounts(cells[k := Absorb(cells[k], p)], order, rows + [p])
  {
    OtherGroups(rows, p, k);
    GroupStep(rows, p, k);
    AbsorbSummarizes(cells[k], k, Group(rows, k), p);
  }

  lemma RowOpensCell(cells: map<Key, Observation>, order: seq<Key>, rows: seq<Pixel>, p: Pixel, k: Key)
    requires Accounts(cells, order, rows) && Placed(p) == Some(k) && k !in cells
    ensures Accounts(cells[k := First(p, k)], order + [k], rows + [p])
  {
    OtherGroups(rows, p, k);
    OpenedGroup(rows, p, k);
    FirstSummarizes(p, k);
  }

  lemma RowSkipped(cells: map<Key, Observation>, order: seq<Key>, rows: seq<Pixel>, p: Pixel)
    requires Accounts(cells, order, rows) && Placed(p) == None
    ensures Accounts(cells, order, rows + [p])
  {
    forall k ensures Group(rows + [p], k) == Group(rows, k) {
      GroupStep(rows, p, k);
    }
  }

  /** The keys in the order in which the rows first name them. */
  function FirstMet(rows: seq<Pixel>): seq<Key> {
    if rows == [] then []
    else
      var before, k := FirstMet(rows[..|rows| - 1]), Placed(rows[|rows| - 1]);
      if k.Some? && k.value !in before then before + [k.value] else before
  }

  /** The fold over the feed: the table of cells, and the order in which they were first met. */
  method MergeFireCells(rows: seq<Pixel>) returns (cells: map<Key, Observation>, order: seq<Key>)
    ensures Accounts(cells, order, rows) && order == FirstMet(rows)
  {
    cells, order := map[], [];
    for n := 0 to |rows|
      invariant Accounts(cells, order, rows[..n]) && order == FirstMet(rows[..n])
    {
      var p := rows[n];
      assert rows[..n + 1] == rows[..n] + [p];
      if p.cell.None? {
        RowSkipped(cells, order, rows[..n], p);
        continue;
      }
      var k := Key(p.day, p.cell.value);
      if k !in cells {
        RowOpensCell(cells, order, rows[..n], p, k);
        cells, order := cells[k := First(p, k)], order + [k];
      } else {
        RowJoinsCell(cells, order, rows[..n], p, k);
        cells := cells[k := Absorb(cells[k], p)];
      }
    }
    assert rows[..|rows|] == rows;
  }

  // ---------------------------------------------------------------- conservation

  function PixelsIn(cells: map<Key, Observation>, order: seq<Key>): nat
    requires forall k <- order :: k in cells
  {
    if order == [] then 0 else PixelsIn(cells, order[..|order| - 1]) + cells[order[|order| - 1]].pixels
  }

  function PlacedRows(rows: seq<Pixel>): nat {
    if rows == [] then 0
    else PlacedRows(rows[..|rows| - 1]) + if Placed(rows[|rows| - 1]).Some? then 1 else 0
  }

  /** The sizes of the groups of these keys, together. */
  function GroupSizes(rows: seq<Pixel>, keys: seq<Key>): nat {
    if keys == [] then 0 else GroupSizes(rows, keys[..|keys| - 1]) + |Group(rows, keys[|keys| - 1])|
  }

  lemma {:induction false} PixelsAreGroupSizes(cells: map<Key, Observation>, order: seq<Key>, rows: seq<Pixel>)
    requires forall k <- order :: k in cells && cells[k].pixels == |Group(rows, k)|
    ensures PixelsIn(cells, order) == GroupSizes(rows, order)
  {
    if order != [] {
      assert order[|order| - 1] in order;
      PixelsAreGroupSizes(cells, order[..|order| - 1], rows);
    }
  }

  /** A placed row enlarges one group by one. */
  lemma {:induction false} RowEnlargesOneGroup(rows: seq<Pixel>, p: Pixel, keys: seq<Key>)
    requires NoRepeat(keys)
    ensures GroupSizes(rows + [p], keys) ==
            GroupSizes(rows, keys) + if Placed(p).Some? && Placed(p).value in keys then 1 else 0
  {
    if keys != [] {
      var init, last := keys[..|keys| - 1], keys[|keys| - 1];
      RowEnlargesOneGroup(rows, p, init);
      GroupStep(rows, p, last);
      assert keys == init + [last] && last !in init;
    }
  }

  lemma {:induction false} GroupsCoverRows(rows: seq<Pixel>, keys: seq<Key>)
    requires NoRepeat(keys) && forall p <- rows :: Placed(p).Some? ==> Placed(p).value in keys
    ensures GroupSizes(rows, keys) == PlacedRows(rows)
  {
    if rows == [] {
      NoRowsNoGroups(keys);
    } else {
      var init, last := rows[..|rows| - 1], rows[|rows| - 1];
      assert rows == init + [last] && last in rows;
      GroupsCoverRows(init, keys);
      RowEnlargesOneGroup(init, last, keys);
    }
  }

  lemma {:induction false} NoRowsNoGroups(keys: seq<Key>)
    ensures GroupSizes([], keys) == 0
  {
    if keys != [] {
      NoRowsNoGroups(keys[..|keys| - 1]);
    }
  }

  lemma {:induction false} RowIsInItsGroup(rows: seq<Pixel>, p: Pixel)
    requires p in rows && Placed(p).Some?
    ensures p in Group(rows, Placed(p).value)
  {
    if p != rows[0] {
      RowIsInItsGroup(rows[1..], p);
    }
  }

  /** Every placed row is counted in exactly one observation. */
  lemma {:induction false} PixelsAreConserved(cells: map<Key, Observation>, order: seq<Key>, rows: seq<Pixel>)
    requires Accounts(cells, order, rows)
    ensures (forall k <- order :: k in cells) && PixelsIn(cells, order) == PlacedRows(rows)
  {
    forall p <- rows | Placed(p).Some? ensures Placed(p).value in order {
      RowIsInItsGroup(rows, p);
    }
    forall k <- order ensures cells[k].pixels == |Group(rows, k)| {
      assert Summarizes(cells[k], k, Group(rows, k));
    }
    PixelsAreGroupSizes(cells, order, rows);
    GroupsCoverRows(rows, order);
  }

  // ---------------------------------------------------------------- the order of the rows

  lemma {:induction false} GroupCounts(rows: seq<Pixel>, k: Key, p: Pixel)
    ensures multiset(Group(rows, k))[p] == if Placed(p) == Some(k) then multiset(rows)[p] else 0
  {
    if rows != [] {
      GroupCounts(rows[1..], k, p);
      assert rows == [rows[0]] + rows[1..];
    }
  }

  lemma ReorderedGroups(rows: seq<Pixel>, rows': seq<Pixel>, k: Key)
    requires multiset(rows) == multiset(rows')
    ensures multiset(Group(rows, k)) == multiset(Group(rows', k))
  {
    forall p ensures multiset(Group(rows, k))[p] == multiset(Group(rows', k))[p] {
      GroupCounts(rows, k, p);
      GroupCounts(rows', k, p);
    }
  }

  /** Equal but for the confidence letter, and the confidence words are equal too. */
  predicate SameButLetter(o: Observation, o': Observation) {
    o.(confidence := "") == o'.(confidence := "") && Word(o.confidence) == Word(o'.confidence)
  }

  lemma SameMembers<T>(s: seq<T>, t: seq<T>)
    requires multiset(s) == multiset(t)
    ensures |s| == |t| && forall x :: x in s <==> x in t
  {
    assert |s| == |multiset(s)|;
    forall x ensures x in s <==> x in t {
      assert x in s <==> x in multiset(s);
      assert x in t <==> x in multiset(t);
    }
  }

  lemma FrpMembers(group: seq<Pixel>, x: real)
    ensures x in Frps(group) <==> exists p :: p in group && OrZero(p.frp) == x
  {
    if x in Frps(group) {
      var i :| 0 <= i < |group| && Frps(group)[i] == x;
      assert group[i] in group;
    }
    if p :| p in group && OrZero(p.frp) == x {
      var i :| 0 <= i < |group| && group[i] == p;
      assert Frps(group)[i] == x;
    }
  }

  lemma BrightnessMembers(group: seq<Pixel>, x: real)
    ensures x in Brightnesses(group) <==> exists p :: p in group && OrZero(p.brightness) == x
  {
    if x in Brightnesses(group) {
      var i :| 0 <= i < |group| && Brightnesses(group)[i] == x;
      assert group[i] in group;
    }
    if p :| p in group && OrZero(p.brightness) == x {
      var i :| 0 <= i < |group| && group[i] == p;
      assert Brightnesses(group)[i] == x;
    }
  }

  lemma BestRank(letter: string, letter': string, group: seq<Pixel>, group': seq<Pixel>)
    requires FirstBest(letter, group) && FirstBest(letter', group')
    requires forall p :: p in group <==> p in group'
    ensures Rank(letter) == Rank(letter')
  {
    var i :| 0 <= i < |group| && group[i].confidence == letter && IsFirstBest(group, i);
    var j :| 0 <= j < |group'| && group'[j].confidence == letter' && IsFirstBest(group', j);
    assert group[i] in group' && group'[j] in group;
  }

  lemma ReadingsAgree(o: Observation, o': Observation, k: Key, group: seq<Pixel>, group': seq<Pixel>)
    requires Summarizes(o, k, group) && Summarizes(o', k, group') && forall p :: p in group <==> p in group'
    ensures o.frp == o'.frp && o.brightness == o'.brightness
  {
    assert o.frp in Frps(group') && o'.frp in Frps(group) by {
      FrpMembers(group, o.frp);
      FrpMembers(group', o.frp);
      FrpMembers(group, o'.frp);
      FrpMembers(group', o'.frp);
    }
    assert o.brightness in Brightnesses(group') && o'.brightness in Brightnesses(group) by {
      BrightnessMembers(group, o.brightness);
      BrightnessMembers(group', o.brightness);
      BrightnessMembers(group, o'.brightness);
      BrightnessMembers(group', o'.brightness);
    }
  }

  lemma NewestAgrees(a: Option<int>, b: Option<int>, group: seq<Pixel>, group': seq<Pixel>)
    requires Newest(a, group) && Newest(b, group') && forall p :: p in group <==> p in group'
    ensures a == b
  {
  }

  lemma SummariesAgree(o: Observation, o': Observation, k: Key, group: seq<Pixel>, group': seq<Pixel>)
    requires Summarizes(o, k, group) && Summarizes(o', k, group') && multiset(group) == multiset(group')
    ensures SameButLetter(o, o')
  {
    SameMembers(group, group');
    ReadingsAgree(o, o', k, group, group');
    BestRank(o.confidence, o'.confidence, group, group');
    NewestAgrees(o.observed, o'.observed, group, group');
    assert o.satellites == o'.satellites;
  }

  lemma CellsAgree(rows: seq<Pixel>, cells: map<Key, Observation>, order: seq<Key>,
                   rows': seq<Pixel>, cells': map<Key, Observation>, order': seq<Key>, k: Key)
    requires Accounts(cells, order, rows) && Accounts(cells', order', rows') && multiset(rows) == multiset(rows')
    ensures k in cells <==> k in cells'
    ensures k in cells ==> SameButLetter(cells[k], cells'[k])
  {
    var group, group' := Group(rows, k), Group(rows', k);
    assert k in cells <==> group != [];
    ReorderedGroups(rows, rows', k);
    SameMembers(group, group');
    if k in cells {
      assert Summarizes(cells[k], k, group) && Summarizes(cells'[k], k, group');
      SummariesAgree(cells[k], cells'[k], k, group, group');
    }
  }

  /** The cells, and all their readings but the letter, do not depend on the order of the feed. */
  lemma OrderDoesNotMatter(rows: seq<Pixel>, cells: map<Key, Observation>, order: seq<Key>,
                           rows': seq<Pixel>, cells': map<Key, Observation>, order': seq<Key>)
    requires Accounts(cells, order, rows) && Accounts(cells', order', rows') && multiset(rows) == multiset(rows')
    ensures cells.Keys == cells'.Keys
    ensures forall k <- cells :: SameButLetter(cells[k], cells'[k])
  {
    forall k ensures (k in cells <==> k in cells') && (k in cells ==> SameButLetter(cells[k], cells'[k])) {
      CellsAgree(rows, cells, order, rows', cells', order', k);
    }
  }

  ghost predicate LetterIsFixed(group: seq<Pixel>) {
    forall group', letter, letter' {:trigger FirstBest(letter, group), FirstBest(letter', group')} ::
      multiset(group') == multiset(group) && FirstBest(letter, group) && FirstBest(letter', group')
      ==> letter == letter'
  }

  ghost predicate AllUnranked(group: seq<Pixel>) {
    forall p <- group :: Rank(p.confidence) == 0
  }

  /** The letter itself depends on the order exactly where no row is ranked and two rows differ. */
  lemma LetterIsFixedExactly(group: seq<Pixel>)
    ensures LetterIsFixed(group) <==>
            !AllUnranked(group) || forall p, q :: p in group && q in group ==> p.confidence == q.confidence
  {
    if !AllUnranked(group) || forall p, q :: p in group && q in group ==> p.confidence == q.confidence {
      forall group', letter, letter' | multiset(group') == multiset(group)
        && FirstBest(letter, group) && FirstBest(letter', group') ensures letter == letter'
      {
        LetterAgrees(group, group', letter, letter');
      }
    } else {
      var p, q :| p in group && q in group && p.confidence != q.confidence;
      var group' := BringToFront(group, p);
      var group'' := BringToFront(group, q);
      assert IsFirstBest(group', 0) && IsFirstBest(group'', 0) && group'[0] == p && group''[0] == q;
      assert FirstBest(p.confidence, group') && FirstBest(q.confidence, group'');
      assert group[0].confidence != p.confidence || group[0].confidence != q.confidence;
      assert IsFirstBest(group, 0) && FirstBest(group[0].confidence, group);
    }
  }

  lemma LetterAgrees(group: seq<Pixel>, group': seq<Pixel>, letter: string, letter': string)
    requires multiset(group') == multiset(group) && FirstBest(letter, group) && FirstBest(letter', group')
    requires !AllUnranked(group) || forall p, q :: p in group && q in group ==> p.confidence == q.confidence
    ensures letter == letter'
  {
    SameMembers(group, group');
    BestRank(letter, letter', group, group');
    var i :| 0 <= i < |group| && group[i].confidence == letter && IsFirstBest(group, i);
    var j :| 0 <= j < |group'| && group'[j].confidence == letter' && IsFirstBest(group', j);
    assert group[i] in group && group'[j] in group;
  }

  lemma BringToFront(group: seq<Pixel>, p: Pixel) returns (group': seq<Pixel>)
    requires p in group && AllUnranked(group)
    ensures multiset(group') == multiset(group) && |group'| > 0 && group'[0] == p && IsFirstBest(group', 0)
  {
    var i :| 0 <= i < |group| && group[i] == p;
    group' := [p] + group[..i] + group[i + 1..];
    assert group == group[..i] + [p] + group[i + 1..];
    SameMembers(group, group');
    forall j | 0 <= j < |group'| ensures Rank(group'[j].confidence) == 0 {
      assert group'[j] in group';
    }
  }

  // ---------------------------------------------------------------- keys and identifiers as texts

  function Dots(s: string): nat {
    if s == "" then 0 else Dots(s[..|s| - 1]) + if s[|s| - 1] == '.' then 1 else 0
  }

  /** How a cell is printed: two numbers with one dot each, and a comma. */
  predicate IsCellText(cell: string) {
    Dots(cell) == 2 && forall c <- cell :: c != '_' && c != '~'
  }

  predicate Printed(rows: seq<Pixel>) {
    forall p <- rows :: p.cell.Some? ==> IsCellText(p.cell.value)
  }

  /** The text under which the code keeps a cell and day. */
  function KeyText(k: Key): string {
    k.day + "." + k.cell
  }

  lemma {:induction false} DotsAdd(s: string, t: string)
    ensures Dots(s + t) == Dots(s) + Dots(t)
  {
    if t == "" {
      assert s + t == s;
    } else {
      DotsAdd(s, t[..|t| - 1]);
      assert (s + t)[..|s + t| - 1] == s + t[..|t| - 1];
    }
  }

  /** Where two texts end alike, the dots tell where the cells begin. */
  lemma SameCut(d: string, c: string, d': string, c': string)
    requires d + "." + c == d' + "." + c' && Dots(c) == Dots(c')
    ensures d == d' && c == c'
  {
    var s := d + "." + c;
    if |c| < |c'| {
      LongerHasMoreDots(d, c, d', c');
    } else if |c'| < |c| {
      LongerHasMoreDots(d', c', d, c);
    }
    assert s[..|s| - |c| - 1] == d && s[|s| - |c|..] == c;
    assert s[..|s| - |c'| - 1] == d' && s[|s| - |c'|..] == c';
  }

  lemma LongerHasMoreDots(d: string, c: string, d': string, c': string)
    requires d + "." + c == d' + "." + c' && |c| < |c'|
    ensures Dots(c) < Dots(c')
  {
    var s := d + "." + c;
    var x := c'[..|c'| - |c| - 1];
    assert s[|s| - |c'|..] == c' && s[|s| - |c| - 1..] == "." + c;
    assert c' == x + ("." + c);
    DotsAdd(x, "." + c);
    DotsAdd(".", c);
  }

  /** The key text determines the day and the cell. */
  lemma KeyTextTells(k: Key, k': Key)
    requires IsCellText(k.cell) && IsCellText(k'.cell)
    ensures KeyText(k) == KeyText(k') <==> k == k'
  {
    if KeyText(k) == KeyText(k') { SameCut(k.day, k.cell, k'.day, k'.cell); }
  }

  function Swapped(c: char): char {
    if c == ',' then '_' else if c == '-' then '~' else c
  }

  /** A comma becomes an underscore and a hyphen a tilde. */
  function Swap(s: string): (r: string)
    ensures |r| == |s| && forall i :: 0 <= i < |s| ==> r[i] == Swapped(s[i])
  {
    seq(|s|, i requires 0 <= i < |s| => Swapped(s[i]))
  }

  /** The identifier of a cell and day as a source. */
  function SourceText(k: Key): string {
    Swap(KeyText(k))
  }

  lemma SwapsParts(k: Key)
    ensures SourceText(k) == Swap(k.day) + "." + Swap(k.cell)
  {
  }

  lemma {:induction false} SwapKeepsDots(s: string)
    ensures Dots(Swap(s)) == Dots(s)
  {
    if s != "" {
      SwapKeepsDots(s[..|s| - 1]);
      assert Swap(s)[..|s| - 1] == Swap(s[..|s| - 1]);
    }
  }

  /** Texts without underscores and tildes are told apart after the swap. */
  lemma SwapTells(s: string, t: string)
    requires forall c | c in s || c in t :: c != '_' && c != '~'
    ensures Swap(s) == Swap(t) <==> s == t
  {
    if Swap(s) == Swap(t) {
      forall i | 0 <= i < |s| ensures s[i] == t[i] {
        assert Swap(s)[i] == Swap(t)[i] && s[i] in s && t[i] in t;
      }
    }
  }

  /** Two cells and days share a source exactly if the cells are equal and the days are after the swap. */
  lemma SourceTellsExactly(k: Key, k': Key)
    requires IsCellText(k.cell) && IsCellText(k'.cell)
    ensures SourceText(k) == SourceText(k') <==> k.cell == k'.cell && Swap(k.day) == Swap(k'.day)
  {
    SwapsParts(k);
    SwapsParts(k');
    SwapKeepsDots(k.cell);
    SwapKeepsDots(k'.cell);
    if SourceText(k) == SourceText(k') {
      SameCut(Swap(k.day), Swap(k.cell), Swap(k'.day), Swap(k'.cell));
    }
    SwapTells(k.cell, k'.cell);
  }

  /** The days of the feed are told apart after the swap: two of them differ by more than that. */
  predicate DaysToldApart(rows: seq<Pixel>) {
    forall p, q | p in rows && q in rows && p.cell.Some? && p.cell == q.cell && p.day != q.day ::
      Swap(p.day) != Swap(q.day)
  }

  function Sources(rows: seq<Pixel>): seq<string> {
    seq(|FirstMet(rows)|, i requires 0 <= i < |FirstMet(rows)| => SourceText(FirstMet(rows)[i]))
  }

  lemma {:induction false} FirstMetAreKeys(rows: seq<Pixel>)
    ensures NoRepeat(FirstMet(rows))
    ensures forall k :: k in FirstMet(rows) <==> exists p :: p in rows && Placed(p) == Some(k)
  {
    if rows != [] {
      var init, last := rows[..|rows| - 1], rows[|rows| - 1];
      FirstMetAreKeys(init);
      assert rows == init + [last] && last in rows;
    }
  }

  predicate AllDiffer(texts: seq<string>) {
    forall i, j :: 0 <= i < j < |texts| ==> texts[i] != texts[j]
  }

  lemma KeyOf(rows: seq<Pixel>, i: nat) returns (p: Pixel)
    requires i < |FirstMet(rows)|
    ensures p in rows && Placed(p) == Some(FirstMet(rows)[i])
  {
    FirstMetAreKeys(rows);
    assert FirstMet(rows)[i] in FirstMet(rows);
    p :| p in rows && Placed(p) == Some(FirstMet(rows)[i]);
  }

  lemma PlaceOfKey(rows: seq<Pixel>, p: Pixel) returns (i: nat)
    requires p in rows && Placed(p).Some?
    ensures i < |FirstMet(rows)| && FirstMet(rows)[i] == Placed(p).value
  {
    FirstMetAreKeys(rows);
    assert Placed(p).value in FirstMet(rows);
    i :| 0 <= i < |FirstMet(rows)| && FirstMet(rows)[i] == Placed(p).value;
  }

  /** The observations of a feed have distinct sources exactly if its days are told apart. */
  lemma SourcesDifferExactly(rows: seq<Pixel>)
    requires Printed(rows)
    ensures AllDiffer(Sources(rows)) <==> DaysToldApart(rows)
  {
    var order, texts := FirstMet(rows), Sources(rows);
    FirstMetAreKeys(rows);
    if DaysToldApart(rows) {
      forall i, j | 0 <= i < j < |order| ensures texts[i] != texts[j] {
        var p := KeyOf(rows, i);
        var q := KeyOf(rows, j);
        SourceTellsExactly(order[i], order[j]);
      }
    } else {
      var p, q :| p in rows && q in rows && p.cell.Some? && p.cell == q.cell && p.day != q.day
                  && Swap(p.day) == Swap(q.day);
      var i := PlaceOfKey(rows, p);
      var j := PlaceOfKey(rows, q);
      SourceTellsExactly(order[i], order[j]);
      assert texts[i] == texts[j] && i != j;
    }
  }

  /** Days without underscores and tildes, dates among them, are told apart. */
  lemma PlainDaysAreToldApart(rows: seq<Pixel>)
    requires forall p <- rows :: forall c <- p.day :: c != '_' && c != '~'
    ensures DaysToldApart(rows)
  {
    forall p, q | p in rows && q in rows && p.day != q.day ensures Swap(p.day) != Swap(q.day) {
      SwapTells(p.day, q.day);
    }
  }

  // ---------------------------------------------------------------- readings in fields

  /** A cell reads high if any of its rows does, else nominal if any does, else low if any does. */
  lemma CellReadsItsBest(o: Observation, k: Key, group: seq<Pixel>)
    requires Summarizes(o, k, group)
    ensures Word(o.confidence)
            == if exists p :: p in group && p.confidence == "h" then "high"
               else if exists p :: p in group && p.confidence == "n" then "nominal"
               else if exists p :: p in group && p.confidence == "l" then "low" else "unknown"
  {
    var i :| 0 <= i < |group| && group[i].confidence == o.confidence && IsFirstBest(group, i);
    assert group[i] in group;
    forall p | p in group ensures Rank(p.confidence) <= Rank(o.confidence) {
      var j :| 0 <= j < |group| && group[j] == p;
    }
  }

  /** The readings of a cell: the largest of its rows, a missing one counting as nothing; its satellites and its
      newest fix. */
  lemma ReadingsInFields(o: Observation, k: Key, group: seq<Pixel>)
    requires Summarizes(o, k, group)
    ensures o.key == k && o.pixels == |group|
    ensures forall p | p in group ::
              && (if p.frp.Some? then p.frp.value else 0.0) <= o.frp
              && (if p.brightness.Some? then p.brightness.value else 0.0) <= o.brightness
              && (p.satellite != "" ==> p.satellite in o.satellites)
              && (p.observed.Some? ==> o.observed.Some? && p.observed.value <= o.observed.value)
    ensures exists p :: p in group && o.frp == if p.frp.Some? then p.frp.value else 0.0
    ensures exists p :: p in group && o.brightness == if p.brightness.Some? then p.brightness.value else 0.0
    ensures forall s | s in o.satellites :: exists p :: p in group && p.satellite == s
    ensures o.observed.Some? ==> exists p :: p in group && p.observed == o.observed
  {
    forall p | p in group ensures OrZero(p.frp) in Frps(group) && OrZero(p.brightness) in Brightnesses(group) {
      var i :| 0 <= i < |group| && group[i] == p;
      assert Frps(group)[i] == OrZero(p.frp) && Brightnesses(group)[i] == OrZero(p.brightness);
    }
    FrpMembers(group, o.frp);
    BrightnessMembers(group, o.brightness);
  }

  /** The rows of a cell and day are those with that day and that text of rounded coordinates, in their order. */
  lemma {:induction false} GroupInFields(rows: seq<Pixel>, k: Key)
    ensures forall p :: p in Group(rows, k) <==> p in rows && p.cell == Some(k.cell) && p.day == k.day
    ensures rows != [] ==>
              var init, last := rows[..|rows| - 1], rows[|rows| - 1];
              Group(rows, k) == Group(init, k) + if last.cell == Some(k.cell) && last.day == k.day then [last] else []
  {
    forall p ensures p in Group(rows, k) <==> p in rows && p.cell == Some(k.cell) && p.day == k.day {
      GroupCounts(rows, k, p);
      assert p in Group(rows, k) <==> p in multiset(Group(rows, k));
    }
    if rows != [] {
      GroupStep(rows[..|rows| - 1], rows[|rows| - 1], k);
      assert rows == rows[..|rows| - 1] + [rows[|rows| - 1]];
    }
  }
}
