/** Opaque message cursors: the text of a coordinate in base64url. */
module MessageCursor {
  // Without padding (sections 3.2 and 5 of RFC 4648), and accepted back only in the one form the encoder writes.

  import opened Common

  type Byte = b: int | 0 <= b < 256

  /** A six-bit digit. */
  type Digit = d: int | 0 <= d < 64

  /** A-Z, a-z, 0-9, then hyphen and underscore. */
  function CharOf(d: Digit): char {
    if d < 26 then ('A' as int + d) as char
    else if d < 52 then ('a' as int + d - 26) as char
    else if d < 62 then ('0' as int + d - 52) as char
    else if d == 62 then '-' else '_'
  }

  function DigitOf(c: char): Option<Digit> {
    if 'A' <= c <= 'Z' then Some(c as int - 'A' as int)
    else if 'a' <= c <= 'z' then Some(c as int - 'a' as int + 26)
    else if '0' <= c <= '9' then Some(c as int - '0' as int + 52)
    else if c == '-' then Some(62)
    else if c == '_' then Some(63)
    else None
  }

  lemma DigitsRoundTrip(d: Digit)
    ensures DigitOf(CharOf(d)) == Some(d)
  {
  }

  // ---- base64url ---------------------------------------------------------------------------------------

  /** Three bytes as four digits. */
  function Digits(a: Byte, b: Byte, c: Byte): seq<Digit> {
    [a / 4, a % 4 * 16 + b / 16, b % 16 * 4 + c / 64, c % 64]
  }

  /** Four digits as three bytes. */
  function Bytes(p: Digit, q: Digit, r: Digit, s: Digit): seq<Byte> {
    [p * 4 + q / 16, q % 16 * 16 + r / 4, r % 4 * 64 + s]
  }

  function EncodeDigits(raw: seq<Byte>): seq<Digit> {
    if raw == [] then []
    else if |raw| == 1 then Digits(raw[0], 0, 0)[..2]
    else if |raw| == 2 then Digits(raw[0], raw[1], 0)[..3]
    else Digits(raw[0], raw[1], raw[2]) + EncodeDigits(raw[3..])
  }

  /** Decoding after the padding is restored; a lone digit is an error, spare low bits are dropped. */
  function DecodeDigits(ds: seq<Digit>): Option<seq<Byte>> {
    if ds == [] then Some([])
    else if |ds| == 1 then None
    else if |ds| == 2 then Some(Bytes(ds[0], ds[1], 0, 0)[..1])
    else if |ds| == 3 then Some(Bytes(ds[0], ds[1], ds[2], 0)[..2])
    else
      var rest := DecodeDigits(ds[4..]);
      if rest.None? then None else Some(Bytes(ds[0], ds[1], ds[2], ds[3]) + rest.value)
  }

  lemma GroupRoundTrip(a: Byte, b: Byte, c: Byte)
    ensures var d := Digits(a, b, c); Bytes(d[0], d[1], d[2], d[3]) == [a, b, c]
  {
  }

  /** A short last group leaves its spare digits zero, so nothing is lost when they are dropped. */
  lemma OneByteDecodes(a: Byte)
    ensures DecodeDigits(EncodeDigits([a])) == Some([a])
  {
    var d := Digits(a, 0, 0);
    GroupRoundTrip(a, 0, 0);
    assert EncodeDigits([a]) == [d[0], d[1]];
    assert Bytes(d[0], d[1], 0, 0)[..1] == [a];
  }

  lemma TwoBytesDecode(a: Byte, b: Byte)
    ensures DecodeDigits(EncodeDigits([a, b])) == Some([a, b])
  {
    var d := Digits(a, b, 0);
    GroupRoundTrip(a, b, 0);
    assert EncodeDigits([a, b]) == [d[0], d[1], d[2]];
    assert Bytes(d[0], d[1], d[2], 0)[..2] == [a, b];
  }

  lemma {:induction false} DigitsDecode(raw: seq<Byte>)
    ensures DecodeDigits(EncodeDigits(raw)) == Some(raw)
  {
    if raw == [] {
    } else if |raw| == 1 {
      OneByteDecodes(raw[0]);
      assert raw == [raw[0]];
    } else if |raw| == 2 {
      TwoBytesDecode(raw[0], raw[1]);
      assert raw == [raw[0], raw[1]];
    } else {
      var head := Digits(raw[0], raw[1], raw[2]);
      DigitsDecode(raw[3..]);
      GroupRoundTrip(raw[0], raw[1], raw[2]);
      assert (head + EncodeDigits(raw[3..]))[4..] == EncodeDigits(raw[3..]);
      assert raw == [raw[0], raw[1], raw[2]] + raw[3..];
    }
  }

  function Text(ds: seq<Digit>): string {
    seq(|ds|, k requires 0 <= k < |ds| => CharOf(ds[k]))
  }

  function Encode(raw: seq<Byte>): string { Text(EncodeDigits(raw)) }

  function ReadDigits(text: string): (ds: Option<seq<Digit>>)
    ensures ds.None? <==> exists k :: 0 <= k < |text| && DigitOf(text[k]).None?
    ensures ds.Some? ==> |ds.value| == |text| && forall k | 0 <= k < |text| :: DigitOf(text[k]) == Some(ds.value[k])
  {
    if text == [] then Some([])
    else
      var rest := ReadDigits(text[1..]);
      assert forall k | 1 <= k < |text| :: text[k] == text[1..][k - 1];
      if DigitOf(text[0]).None? || rest.None? then None else Some([DigitOf(text[0]).value] + rest.value)
  }

  function Decode(text: string): Option<seq<Byte>> {
    var ds := ReadDigits(text);
    if ds.None? then None else DecodeDigits(ds.value)
  }

  /** Decoding what was encoded gives it back, for every byte string. */
  lemma BytesRoundTrip(raw: seq<Byte>)
    ensures Decode(Encode(raw)) == Some(raw)
  {
    var ds := EncodeDigits(raw);
    forall k | 0 <= k < |ds| ensures DigitOf(Text(ds)[k]) == Some(ds[k]) { DigitsRoundTrip(ds[k]); }
    assert ReadDigits(Text(ds)).value == ds;
    DigitsDecode(raw);
  }

  lemma {:induction false} EncodedLength(raw: seq<Byte>)
    ensures 3 * |EncodeDigits(raw)| <= 4 * |raw| + 2
    ensures raw != [] ==> |EncodeDigits(raw)| >= 1
  {
    if |raw| > 2 { EncodedLength(raw[3..]); }
  }

  // ---- cursors -------------------------------------------------------------------------------------------

  /** Microseconds from the start of year 1 to the end of year 9999. */
  const INSTANTS := 315_537_897_600_000_000

  /** An instant in UTC, as far as the calendar goes. */
  type Instant = t: int | 0 <= t < INSTANTS

  /** Two to the power of 128. */
  const UUIDS := 0x1_0000_0000_0000_0000_0000_0000_0000_0000

  type Uuid = i: int | 0 <= i < UUIDS

  datatype Coordinate = Coordinate(created: Instant, id: Uuid)

  /** The text forms of a UTC instant and of a UUID, and the parsers that read them. */
  datatype Texts = Texts(
    ofTime: Instant -> seq<Byte>, parseTime: seq<Byte> -> Option<Instant>,
    ofId: Uuid -> seq<Byte>, parseId: seq<Byte> -> Option<Uuid>)

  const BAR: Byte := 124

  /** Each parser reads what its printer writes; an id has no bar; both texts are short. The parsers
      may accept other spellings besides. */
  ghost predicate Lawful(x: Texts) {
    && (forall t: Instant :: x.parseTime(x.ofTime(t)) == Some(t) && |x.ofTime(t)| <= 32)
    && (forall i: Uuid :: x.parseId(x.ofId(i)) == Some(i) && |x.ofId(i)| == 36 && BAR !in x.ofId(i))
  }

  function EncodeCursor(x: Texts, c: Coordinate): string {
    Encode(x.ofTime(c.created) + [BAR] + x.ofId(c.id))
  }

  /** Split at the last bar. */
  function SplitLast(raw: seq<Byte>): Option<(seq<Byte>, seq<Byte>)> {
    if raw == [] then None
    else if raw[|raw| - 1] == BAR then Some((raw[..|raw| - 1], []))
    else
      var r := SplitLast(raw[..|raw| - 1]);
      if r.None? then None else Some((r.value.0, r.value.1 + [raw[|raw| - 1]]))
  }

  function DecodeCursor(x: Texts, text: string): Option<Coordinate> {
    if !(1 <= |text| <= 200) then None
    else
      var raw := Decode(text);
      if raw.None? then None
      else
        var parts := SplitLast(raw.value);
        if parts.None? then None
        else
          var created, id := x.parseTime(parts.value.0), x.parseId(parts.value.1);
          if created.None? || id.None? then None
          else if EncodeCursor(x, Coordinate(created.value, id.value)) != text then None
          else Some(Coordinate(created.value, id.value))
  }

  lemma {:induction false} SplitFinds(a: seq<Byte>, b: seq<Byte>)
    requires BAR !in b
    ensures SplitLast(a + [BAR] + b) == Some((a, b))
  {
    var raw := a + [BAR] + b;
    if b == [] {
      assert raw[..|raw| - 1] == a;
    } else {
      var init := b[..|b| - 1];
      SplitFinds(a, init);
      assert raw[..|raw| - 1] == a + [BAR] + init;
      assert raw[|raw| - 1] == b[|b| - 1] && b[|b| - 1] in b;
      assert init + [b[|b| - 1]] == b;
    }
  }

  /** Every coordinate survives the trip through its cursor. */
  lemma CursorRoundTrip(x: Texts, c: Coordinate)
    requires Lawful(x)
    ensures DecodeCursor(x, EncodeCursor(x, c)) == Some(c)
  {
    var raw := x.ofTime(c.created) + [BAR] + x.ofId(c.id);
    BytesRoundTrip(raw);
    EncodedLength(raw);
    SplitFinds(x.ofTime(c.created), x.ofId(c.id));
  }

  /** Exactly the encoder's own strings are accepted, each as the coordinate it was written for. */
  lemma OnlyEncodedIsAccepted(x: Texts, text: string, c: Coordinate)
    requires Lawful(x)
    ensures DecodeCursor(x, text) == Some(c) <==> text == EncodeCursor(x, c)
  {
    if text == EncodeCursor(x, c) {
      CursorRoundTrip(x, c);
    }
  }

  // ---- the encoding in numbers ----------------------------------------------------------------------------

  /** The alphabet in ASCII: A to Z, a to z, 0 to 9, hyphen and underscore. */
  lemma AlphabetInFull(d: Digit)
    ensures CharOf(d) as int == if d < 26 then 65 + d else if d < 52 then 71 + d else if d < 62 then d - 4
                                else if d == 62 then 45 else 95
  {
  }

  /** Four digits carry the number that three bytes make, high bits first. */
  lemma GroupKeepsTheNumber(a: Byte, b: Byte, c: Byte)
    ensures var d := Digits(a, b, c);
            (d[0] as int) * 262_144 + (d[1] as int) * 4096 + (d[2] as int) * 64 + d[3]
            == (a as int) * 65_536 + (b as int) * 256 + c
  {
  }

  /** One byte takes two digits and two bytes take three: the spare bits are zero. */
  lemma RestInNumbers(a: Byte, b: Byte)
    ensures var one, two := EncodeDigits([a]), EncodeDigits([a, b]);
            && |one| == 2 && (one[0] as int) * 64 + one[1] == (a as int) * 16
            && |two| == 3
            && (two[0] as int) * 4096 + (two[1] as int) * 64 + two[2] == (a as int) * 1024 + (b as int) * 4
  {
  }

  /** Under a cursor stand the bytes of the instant, a bar and the bytes of the identifier; nothing longer than 200
      characters is read. */
  lemma CursorInFull(x: Texts, c: Coordinate, text: string)
    ensures Decode(EncodeCursor(x, c)) == Some(x.ofTime(c.created) + ['|' as int] + x.ofId(c.id))
    ensures |text| > 200 || text == "" ==> DecodeCursor(x, text) == None
  {
    BytesRoundTrip(x.ofTime(c.created) + [BAR] + x.ofId(c.id));
  }
}
