/** The walk over JPEG marker segments that finds the size of an uploaded image, against a printer of headers. */
module JpegHeader {
  import opened Common

  type Byte = b: int | 0 <= b < 256 witness 0
  type Word = w: int | 0 <= w < 65536 witness 0

  datatype Size = Size(width: Word, height: Word)

  /** The sixteen codes C0..CF start a frame, but for DHT, JPG and DAC. */
  predicate IsFrameMarker(m: Byte) {
    0xC0 <= m <= 0xCF && m != 0xC4 && m != 0xC8 && m != 0xCC
  }

  /** SOI, TEM and RST0..RST7 carry no length. */
  predicate IsStandalone(m: Byte) {
    m == 0xD8 || m == 0x01 || 0xD0 <= m <= 0xD7
  }

  function BigEndian(high: Byte, low: Byte): Word {
    high * 256 + low
  }

  /** A slice that may start past the end, where it is empty. */
  function Drop<T>(s: seq<T>, n: nat): seq<T> {
    if n <= |s| then s[n..] else []
  }

  // ---------------------------------------------------------------- the walk

  /** What the walk answers from the bytes still ahead of it. */
  function Walk(s: seq<Byte>): Option<Size>
    decreases |s|
  {
    if |s| < 10 then None
    else if s[0] != 0xFF then Walk(s[1..])
    else if s[1] == 0xFF then Walk(s[1..])
    else if IsStandalone(s[1]) then Walk(s[2..])
    else if IsFrameMarker(s[1]) then Some(Size(BigEndian(s[7], s[8]), BigEndian(s[5], s[6])))
    else if BigEndian(s[2], s[3]) < 2 then None
    else Walk(Drop(s, 2 + BigEndian(s[2], s[3])))
  }

  // ---------------------------------------------------------------- the printer

  /**
   * What may stand before the frame header: a byte that starts no marker, a standalone marker or a segment with its
   * payload. A marker may be preceded by any number of fill bytes.
   */
  datatype Item =
    | Stray(b: Byte)
    | Standalone(fills: nat, marker: Byte)
    | Segment(fills: nat, marker: Byte, payload: seq<Byte>)

  datatype Frame = Frame(fills: nat, marker: Byte, length: Word, precision: Byte, size: Size)

  /** The length field of a segment counts itself, so that a payload holds at most 65533 bytes. */
  predicate LegalItem(it: Item) {
    match it
    case Stray(b) => b != 0xFF
    case Standalone(_, m) => IsStandalone(m)
    case Segment(_, m, payload) => m != 0xFF && !IsStandalone(m) && !IsFrameMarker(m) && |payload| <= 65533
  }

  predicate LegalFrame(f: Frame) {
    IsFrameMarker(f.marker)
  }

  function Fills(n: nat): (s: seq<Byte>)
    ensures |s| == n
  {
    if n == 0 then [] else [0xFF] + Fills(n - 1)
  }

  /** An item without its fill bytes. */
  function ItemBody(it: Item): seq<Byte>
    requires LegalItem(it)
  {
    match it
    case Stray(b) => [b]
    case Standalone(_, m) => [0xFF, m]
    case Segment(_, m, payload) => [0xFF, m, (|payload| + 2) / 256, (|payload| + 2) % 256] + payload
  }

  function PrintItem(it: Item): seq<Byte>
    requires LegalItem(it)
  {
    if it.Stray? then ItemBody(it) else Fills(it.fills) + ItemBody(it)
  }

  predicate Legal(items: seq<Item>) {
    forall it <- items :: LegalItem(it)
  }

  function Print(items: seq<Item>): seq<Byte>
    requires Legal(items)
  {
    if items == [] then [] else PrintItem(items[0]) + Print(items[1..])
  }

  function FrameBody(f: Frame): seq<Byte> {
    [0xFF, f.marker, f.length / 256, f.length % 256, f.precision,
     f.size.height / 256, f.size.height % 256, f.size.width / 256, f.size.width % 256]
  }

  function PrintFrame(f: Frame): seq<Byte> {
    Fills(f.fills) + FrameBody(f)
  }

  /** A header: items, then the frame header, then at least the byte that counts its components. */
  ghost predicate Spells(s: seq<Byte>, items: seq<Item>, f: Frame, rest: seq<Byte>) {
    Legal(items) && LegalFrame(f) && |rest| >= 1 && s == Print(items) + (PrintFrame(f) + rest)
  }

  // ---------------------------------------------------------------- reading back what was printed

  lemma {:induction false} FillsAreSkipped(n: nat, s: seq<Byte>)
    requires |s| >= 10 && s[0] == 0xFF
    ensures Walk(Fills(n) + s) == Walk(s)
  {
    if n == 0 {
      assert Fills(n) + s == s;
    } else {
      FillsAreSkipped(n - 1, s);
      var t := Fills(n - 1) + s;
      assert Fills(n) + s == [0xFF] + t;
      assert t[0] == 0xFF by { assert n - 1 > 0 ==> Fills(n - 1)[0] == 0xFF; }
      assert ([0xFF] + t)[1..] == t;
    }
  }

  lemma FrameIsRead(f: Frame, rest: seq<Byte>)
    requires LegalFrame(f) && |rest| >= 1
    ensures Walk(PrintFrame(f) + rest) == Some(f.size)
    ensures |PrintFrame(f) + rest| >= 10
  {
    var ahead := FrameBody(f) + rest;
    assert PrintFrame(f) + rest == Fills(f.fills) + ahead;
    FillsAreSkipped(f.fills, ahead);
  }

  lemma BodyIsSkipped(it: Item, s: seq<Byte>)
    requires LegalItem(it) && |s| >= 10
    ensures Walk(ItemBody(it) + s) == Walk(s)
  {
    var ahead := ItemBody(it) + s;
    assert Drop(ahead, |ItemBody(it)|) == s;
    match it
    case Stray(b) => assert ahead[1..] == s;
    case Standalone(_, m) => assert ahead[2..] == s;
    case Segment(_, m, payload) => assert BigEndian(ahead[2], ahead[3]) + 2 == |ItemBody(it)|;
  }

  lemma PrintedWithFills(it: Item, s: seq<Byte>)
    requires LegalItem(it) && !it.Stray?
    ensures PrintItem(it) + s == Fills(it.fills) + (ItemBody(it) + s)
    ensures |ItemBody(it) + s| >= |s| + 2 && (ItemBody(it) + s)[0] == 0xFF
  {
  }

  lemma {:induction false} ItemIsSkipped(it: Item, s: seq<Byte>)
    requires LegalItem(it) && |s| >= 10
    ensures Walk(PrintItem(it) + s) == Walk(s)
  {
    BodyIsSkipped(it, s);
    if !it.Stray? {
      PrintedWithFills(it, s);
      FillsAreSkipped(it.fills, ItemBody(it) + s);
    }
  }

  lemma PrintAppends(items: seq<Item>, it: Item, tail: seq<Byte>)
    requires Legal(items) && LegalItem(it)
    ensures Print([it] + items) + tail == PrintItem(it) + (Print(items) + tail)
  {
    assert ([it] + items)[1..] == items;
  }

  lemma {:induction false} PrintedIsRead(items: seq<Item>, f: Frame, rest: seq<Byte>)
    requires Legal(items) && LegalFrame(f) && |rest| >= 1
    ensures Walk(Print(items) + (PrintFrame(f) + rest)) == Some(f.size)
    ensures |Print(items) + (PrintFrame(f) + rest)| >= 10
  {
    var tail := PrintFrame(f) + rest;
    FrameIsRead(f, rest);
    if items == [] {
      assert Print(items) + tail == tail;
    } else {
      PrintedIsRead(items[1..], f, rest);
      ItemIsSkipped(items[0], Print(items[1..]) + tail);
      PrintAppends(items[1..], items[0], tail);
      assert items == [items[0]] + items[1..];
    }
  }

  // ---------------------------------------------------------------- everything read was printed

  lemma TwoBytesBack(high: Byte, low: Byte)
    ensures BigEndian(high, low) / 256 == high && BigEndian(high, low) % 256 == low
  {
  }

  /** One more item in front. */
  lemma ItemJoins(it: Item, s: seq<Byte>, items: seq<Item>, f: Frame, rest: seq<Byte>)
    requires Spells(s, items, f, rest) && LegalItem(it)
    ensures Spells(PrintItem(it) + s, [it] + items, f, rest)
  {
    PrintAppends(items, it, PrintFrame(f) + rest);
  }

  lemma OneMoreFill(n: nat, body: seq<Byte>, tail: seq<Byte>)
    ensures Fills(n + 1) + body + tail == [0xFF] + (Fills(n) + body + tail)
  {
    assert Fills(n + 1) == [0xFF] + Fills(n);
  }

  /** One more fill byte goes to the marker that follows it. */
  lemma FillJoinsItem(it: Item, tail: seq<Byte>) returns (it': Item)
    requires LegalItem(it) && (PrintItem(it) + tail)[0] == 0xFF
    ensures LegalItem(it') && PrintItem(it') + tail == [0xFF] + (PrintItem(it) + tail)
  {
    assert !it.Stray?;
    it' := match it
      case Standalone(n, m) => Standalone(n + 1, m)
      case Segment(n, m, payload) => Segment(n + 1, m, payload)
      case Stray(_) => it;
    OneMoreFill(it.fills, ItemBody(it), tail);
  }

  lemma FillJoins(s: seq<Byte>, items: seq<Item>, f: Frame, rest: seq<Byte>) returns (items': seq<Item>, f': Frame)
    requires Spells(s, items, f, rest) && s[0] == 0xFF
    ensures Spells([0xFF] + s, items', f', rest) && f'.size == f.size
  {
    var tail := PrintFrame(f) + rest;
    if items == [] {
      items', f' := [], f.(fills := f.fills + 1);
      assert Print([]) + tail == tail;
      assert PrintFrame(f') + rest == [0xFF] + tail;
      assert Print([]) + (PrintFrame(f') + rest) == PrintFrame(f') + rest;
    } else {
      assert items == [items[0]] + items[1..];
      PrintAppends(items[1..], items[0], tail);
      var first := FillJoinsItem(items[0], Print(items[1..]) + tail);
      items', f' := [first] + items[1..], f;
      PrintAppends(items[1..], first, tail);
    }
  }

  lemma FrameIsPrinted(s: seq<Byte>) returns (f: Frame)
    requires |s| >= 10 && s[0] == 0xFF && IsFrameMarker(s[1])
    ensures Spells(s, [], f, s[9..]) && f.size == Size(BigEndian(s[7], s[8]), BigEndian(s[5], s[6]))
  {
    f := Frame(0, s[1], BigEndian(s[2], s[3]), s[4], Size(BigEndian(s[7], s[8]), BigEndian(s[5], s[6])));
    TwoBytesBack(s[2], s[3]);
    TwoBytesBack(s[5], s[6]);
    TwoBytesBack(s[7], s[8]);
    assert PrintFrame(f) == FrameBody(f) == s[..9];
    assert s == Print([]) + (PrintFrame(f) + s[9..]);
  }

  lemma SegmentIsPrinted(s: seq<Byte>) returns (it: Item)
    requires |s| >= 10 && s[0] == 0xFF && s[1] != 0xFF && !IsStandalone(s[1]) && !IsFrameMarker(s[1])
    requires 2 <= BigEndian(s[2], s[3]) && 2 + BigEndian(s[2], s[3]) <= |s|
    ensures LegalItem(it) && PrintItem(it) == s[..2 + BigEndian(s[2], s[3])]
  {
    var n := BigEndian(s[2], s[3]);
    it := Segment(0, s[1], s[4..2 + n]);
    TwoBytesBack(s[2], s[3]);
    assert PrintItem(it) == ItemBody(it) == s[..2 + n];
  }

  /** The item the walk has just passed. */
  lemma PassedItem(s: seq<Byte>) returns (it: Item, n: nat)
    requires Walk(s).Some? && !(s[0] == 0xFF && (s[1] == 0xFF || IsFrameMarker(s[1])))
    ensures LegalItem(it) && 0 < n <= |s| && PrintItem(it) + s[n..] == s && Walk(s[n..]) == Walk(s)
  {
    if s[0] != 0xFF {
      it, n := Stray(s[0]), 1;
      assert PrintItem(it) == s[..n];
    } else if IsStandalone(s[1]) {
      it, n := Standalone(0, s[1]), 2;
      assert PrintItem(it) == ItemBody(it) == s[..n];
    } else {
      n := 2 + BigEndian(s[2], s[3]);
      assert n <= |s|;
      it := SegmentIsPrinted(s);
    }
    assert s[..n] + s[n..] == s;
  }

  lemma {:induction false} ReadWasPrinted(s: seq<Byte>) returns (items: seq<Item>, f: Frame, rest: seq<Byte>)
    requires Walk(s).Some?
    ensures Spells(s, items, f, rest) && f.size == Walk(s).value
    decreases |s|
  {
    if s[0] == 0xFF && s[1] == 0xFF {
      items, f, rest := ReadWasPrinted(s[1..]);
      items, f := FillJoins(s[1..], items, f, rest);
      assert s == [0xFF] + s[1..];
    } else if s[0] == 0xFF && IsFrameMarker(s[1]) {
      items, rest := [], s[9..];
      f := FrameIsPrinted(s);
    } else {
      var it, n := PassedItem(s);
      items, f, rest := ReadWasPrinted(s[n..]);
      ItemJoins(it, s[n..], items, f, rest);
      items := [it] + items;
    }
  }

  // ---------------------------------------------------------------- main result

  /** The bytes are two of the signature and then a header whose frame has this size. */
  ghost predicate HasHeader(data: seq<Byte>, size: Size) {
    |data| >= 2 && exists items, f: Frame, rest :: Spells(data[2..], items, f, rest) && f.size == size
  }

  /** The reader answers a size exactly for the buffers that print a header of that size. */
  lemma ReadsExactlyTheHeaders(data: seq<Byte>, size: Size)
    ensures Walk(Drop(data, 2)) == Some(size) <==> HasHeader(data, size)
  {
    if HasHeader(data, size) {
      var items, f: Frame, rest :| Spells(data[2..], items, f, rest) && f.size == size;
      PrintedIsRead(items, f, rest);
    }
    if Walk(Drop(data, 2)) == Some(size) {
      var items, f, rest := ReadWasPrinted(data[2..]);
    }
  }

  datatype Next = Answer(size: Option<Size>) | Continue(pos: nat)

  /** One round of the loop, at a position of the whole buffer. */
  function Round(data: seq<Byte>, pos: nat): (next: Next)
    ensures next.Continue? ==> next.pos > pos && pos < |data|
  {
    if pos + 9 >= |data| then Answer(None)
    else if data[pos] != 0xFF || data[pos + 1] == 0xFF then Continue(pos + 1)
    else if IsStandalone(data[pos + 1]) then Continue(pos + 2)
    else if IsFrameMarker(data[pos + 1]) then
      Answer(Some(Size(BigEndian(data[pos + 7], data[pos + 8]), BigEndian(data[pos + 5], data[pos + 6]))))
    else if BigEndian(data[pos + 2], data[pos + 3]) < 2 then Answer(None)
    else Continue(pos + 2 + BigEndian(data[pos + 2], data[pos + 3]))
  }

  /** The walk by position in the whole buffer. */
  function WalkFrom(data: seq<Byte>, pos: nat): Option<Size>
    decreases |data| - pos
  {
    match Round(data, pos)
    case Answer(size) => size
    case Continue(next) => WalkFrom(data, next)
  }

  datatype Look = Found(answer: Option<Size>) | Skip(n: nat)

  /** One round of the walk over what is ahead. */
  function LookAhead(s: seq<Byte>): Look {
    if |s| < 10 then Found(None)
    else if s[0] != 0xFF || s[1] == 0xFF then Skip(1)
    else if IsStandalone(s[1]) then Skip(2)
    else if IsFrameMarker(s[1]) then Found(Some(Size(BigEndian(s[7], s[8]), BigEndian(s[5], s[6]))))
    else if BigEndian(s[2], s[3]) < 2 then Found(None)
    else Skip(2 + BigEndian(s[2], s[3]))
  }

  lemma WalkLooks(s: seq<Byte>)
    ensures var look := LookAhead(s);
            Walk(s) == if look.Found? then look.answer else Walk(Drop(s, look.n))
  {
  }

  /** What lies ahead at a position. */
  ghost predicate IsAhead(data: seq<Byte>, pos: nat, s: seq<Byte>) {
    && |s| == (if pos <= |data| then |data| - pos else 0)
    && forall k | 0 <= k < |s| :: s[k] == data[pos + k]
  }

  lemma RoundLooks(data: seq<Byte>, pos: nat, s: seq<Byte>)
    requires IsAhead(data, pos, s)
    ensures var look := LookAhead(s);
            Round(data, pos) == if look.Found? then Answer(look.answer) else Continue(pos + look.n)
  {
  }

  lemma AheadNext(data: seq<Byte>, pos: nat, s: seq<Byte>, n: nat)
    requires IsAhead(data, pos, s)
    ensures IsAhead(data, pos + n, Drop(s, n))
  {
  }

  lemma {:induction false} WalkFromIsAhead(data: seq<Byte>, pos: nat, s: seq<Byte>)
    requires IsAhead(data, pos, s)
    ensures WalkFrom(data, pos) == Walk(s)
    decreases |s|
  {
    var look := LookAhead(s);
    WalkLooks(s);
    RoundLooks(data, pos, s);
    if look.Skip? {
      AheadNext(data, pos, s, look.n);
      WalkFromIsAhead(data, pos + look.n, Drop(s, look.n));
    }
  }

  /** The two forms agree. */
  lemma {:induction false} WalkFromIsWalk(data: seq<Byte>, pos: nat)
    ensures WalkFrom(data, pos) == Walk(Drop(data, pos))
  {
    assert IsAhead(data, pos, Drop(data, pos));
    WalkFromIsAhead(data, pos, Drop(data, pos));
  }

  /** The loop of the reader: it stops on every input, reads inside the buffer only and answers what the walk does. */
  method JpegDimensions(data: seq<Byte>) returns (size: Option<Size>)
    ensures size == Walk(Drop(data, 2))
  {
    WalkFromIsWalk(data, 2);
    var pos: int := 2;
    while pos + 9 < |data|
      invariant pos >= 2
      invariant WalkFrom(data, pos) == WalkFrom(data, 2)
    {
      if data[pos] != 0xFF {
        pos := pos + 1;
        continue;
      }
      var marker := data[pos + 1];
      if marker == 0xFF {
        pos := pos + 1;
        continue;
      }
      if marker == 0xD8 || marker == 0x01 || 0xD0 <= marker <= 0xD7 {
        pos := pos + 2;
        continue;
      }
      var segmentLength: int := BigEndian(data[pos + 2], data[pos + 3]);
      if IsFrameMarker(marker) {
        return Some(Size(BigEndian(data[pos + 7], data[pos + 8]), BigEndian(data[pos + 5], data[pos + 6])));
      }
      if segmentLength < 2 {
        return None;
      }
      pos := pos + 2 + segmentLength;
    }
    return None;
  }

  // ---------------------------------------------------------------- the codes and the first frame, in numbers

  /** Thirteen codes start a frame; ten carry no length. */
  lemma CodesInFull(m: Byte)
    ensures IsFrameMarker(m) <==>
            m in {0xC0, 0xC1, 0xC2, 0xC3, 0xC5, 0xC6, 0xC7, 0xC9, 0xCA, 0xCB, 0xCD, 0xCE, 0xCF}
    ensures IsStandalone(m) <==> m in {0x01, 0xD0, 0xD1, 0xD2, 0xD3, 0xD4, 0xD5, 0xD6, 0xD7, 0xD8}
  {
  }

  /** At a frame header with at least ten bytes ahead the size is read: the height from its sixth and seventh byte and
      the width from the two after them, each with the high byte first. */
  lemma FrameIsReadInNumbers(s: seq<Byte>)
    requires |s| >= 10 && s[0] == 0xFF
    requires s[1] in {0xC0, 0xC1, 0xC2, 0xC3, 0xC5, 0xC6, 0xC7, 0xC9, 0xCA, 0xCB, 0xCD, 0xCE, 0xCF}
    ensures Walk(s) == Some(Size(256 * (s[7] as int) + s[8], 256 * (s[5] as int) + s[6]))
  {
  }

  /** A segment is passed over by its length, which counts the two bytes that hold it. */
  lemma SegmentIsPassedInNumbers(s: seq<Byte>)
    requires |s| >= 10 && s[0] == 0xFF && s[1] != 0xFF && !(0xC0 <= s[1] <= 0xD8) && s[1] != 0x01
    ensures var length := 256 * (s[2] as int) + s[3];
            Walk(s) == if length < 2 then None else if 2 + length <= |s| then Walk(s[2 + length..]) else None
  {
    assert Walk([]) == None;
  }
}
