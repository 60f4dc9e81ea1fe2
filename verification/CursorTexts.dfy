/**
 The text forms inside a cursor: an instant as ISO 8601 prints it in UTC, on the proleptic Gregorian calendar, and a
 UUID in the canonical form of section 3 of RFC 4122, each with the parser that reads it back.
 */
module CursorTexts {
  import opened Common
  import opened MessageCursor

  const HYPHEN: Byte := 45

  // ---- UUIDs -----------------------------------------------------------------------------------------------

  /** A digit to base sixteen. */
  type Nibble = d: int | 0 <= d < 16

  function Power(n: nat): nat {
    if n == 0 then 1 else 16 * Power(n - 1)
  }

  lemma FourMore(n: nat)
    ensures Power(n + 4) == 65536 * Power(n)
  {
    assert Power(n + 2) == 256 * Power(n);
  }

  lemma PowersOfSixteen()
    ensures Power(32) == UUIDS
  {
    FourMore(0);
    FourMore(4);
    FourMore(8);
    FourMore(12);
    FourMore(16);
    FourMore(20);
    FourMore(24);
    FourMore(28);
  }

  /** The last `width` digits of n, most significant first. */
  function Positional(n: nat, width: nat): (ds: seq<Nibble>)
    ensures |ds| == width
  {
    if width == 0 then [] else Positional(n / 16, width - 1) + [n % 16]
  }

  function Value(ds: seq<Nibble>): nat {
    if ds == [] then 0 else Value(ds[..|ds| - 1]) * 16 + ds[|ds| - 1]
  }

  lemma {:induction false} PositionalRoundTrip(n: nat, width: nat)
    requires n < Power(width)
    ensures Value(Positional(n, width)) == n
  {
    if width > 0 {
      PositionalRoundTrip(n / 16, width - 1);
      var ds := Positional(n, width);
      assert ds[..width - 1] == Positional(n / 16, width - 1);
    }
  }

  /** 0-9, then a-f. */
  function HexByte(d: Nibble): Byte {
    if d < 10 then 48 + d else 87 + d
  }

  function HexDigit(c: Byte): Nibble {
    if 48 <= c < 58 then c - 48 else if 97 <= c < 103 then c - 87 else 0
  }

  function HexText(ds: seq<Nibble>): (text: seq<Byte>)
    ensures |text| == |ds| && forall k | 0 <= k < |ds| :: text[k] == HexByte(ds[k])
  {
    seq(|ds|, k requires 0 <= k < |ds| => HexByte(ds[k]))
  }

  function HexRead(text: seq<Byte>): (ds: seq<Nibble>)
    ensures |ds| == |text| && forall k | 0 <= k < |text| :: ds[k] == HexDigit(text[k])
  {
    seq(|text|, k requires 0 <= k < |text| => HexDigit(text[k]))
  }

    /** The canonical text of a UUID: 32 digits in groups of 8, 4, 4, 4 and 12. */
  function UuidText(i: Uuid): seq<Byte> {
    var h := HexText(Positional(i, 32));
    h[..8] + [HYPHEN] + h[8..12] + [HYPHEN] + h[12..16] + [HYPHEN] + h[16..20] + [HYPHEN] + h[20..]
  }

  function ReadUuid(text: seq<Byte>): Option<Uuid> {
    if |text| != 36 then None
    else
      var n := Value(HexRead(text[..8] + text[9..13] + text[14..18] + text[19..23] + text[24..]));
      if n < UUIDS then Some(n) else None
  }

  lemma HexRoundTrip(ds: seq<Nibble>)
    ensures HexRead(HexText(ds)) == ds
  {
  }

  lemma UuidDigits(i: Uuid)
    ensures |Positional(i, 32)| == 32 && Value(Positional(i, 32)) == i
  {
    PowersOfSixteen();
    PositionalRoundTrip(i, 32);
  }

  lemma PartsOf(a: seq<Byte>, b: seq<Byte>, c: seq<Byte>, d: seq<Byte>, e: seq<Byte>, text: seq<Byte>)
    requires |a| == 8 && |b| == 4 && |c| == 4 && |d| == 4 && |e| == 12
    requires text == a + [HYPHEN] + b + [HYPHEN] + c + [HYPHEN] + d + [HYPHEN] + e
    ensures |text| == 36
    ensures text[..8] == a && text[9..13] == b && text[14..18] == c && text[19..23] == d && text[24..] == e
    ensures BAR in text ==> BAR in a || BAR in b || BAR in c || BAR in d || BAR in e
  {
  }

  lemma HyphensOut(h: seq<Byte>, text: seq<Byte>)
    requires |h| == 32 && BAR !in h
    requires text == h[..8] + [HYPHEN] + h[8..12] + [HYPHEN] + h[12..16] + [HYPHEN] + h[16..20] + [HYPHEN] + h[20..]
    ensures |text| == 36 && text[..8] + text[9..13] + text[14..18] + text[19..23] + text[24..] == h
    ensures BAR !in text
  {
    PartsOf(h[..8], h[8..12], h[12..16], h[16..20], h[20..], text);
    assert h[..8] + h[8..12] + h[12..16] + h[16..20] + h[20..] == h;
  }

  lemma UuidIsRead(i: Uuid)
    ensures ReadUuid(UuidText(i)) == Some(i) && |UuidText(i)| == 36 && BAR !in UuidText(i)
  {
    var h, text := HexText(Positional(i, 32)), UuidText(i);
    UuidDigits(i);
    assert forall k | 0 <= k < |h| :: h[k] != BAR;
    HyphensOut(h, text);
    HexRoundTrip(Positional(i, 32));
    assert Value(HexRead(h)) == i;
    assert Value(HexRead(text[..8] + text[9..13] + text[14..18] + text[19..23] + text[24..])) == i;
  }

  // ---- the calendar ----------------------------------------------------------------------------------------

  predicate Leap(year: nat) {
    year % 4 == 0 && (year % 100 != 0 || year % 400 == 0)
  }

  /** The days of the proleptic Gregorian calendar before 1 January of a year. */
  function DaysBeforeYear(year: nat): nat
    requires year > 0
  {
    (year - 1) * 365 + (year - 1) / 4 - (year - 1) / 100 + (year - 1) / 400
  }

  lemma FourthYears(year: nat)
    requires year > 0
    ensures year / 4 == (year - 1) / 4 + if year % 4 == 0 then 1 else 0
  {
  }

  lemma HundredthYears(year: nat)
    requires year > 0
    ensures year / 100 == (year - 1) / 100 + if year % 100 == 0 then 1 else 0
    ensures year % 100 == 0 ==> year % 4 == 0
  {
    assert year == 4 * (25 * (year / 100)) + year % 100;
  }

  lemma FourHundredthYears(year: nat)
    requires year > 0
    ensures year / 400 == (year - 1) / 400 + if year % 400 == 0 then 1 else 0
    ensures year % 400 == 0 ==> year % 100 == 0
  {
    assert year == 100 * (4 * (year / 400)) + year % 400;
  }

  lemma NextYear(year: nat)
    requires year > 0
    ensures DaysBeforeYear(year + 1) == DaysBeforeYear(year) + if Leap(year) then 366 else 365
  {
    FourthYears(year);
    HundredthYears(year);
    FourHundredthYears(year);
  }

  /** The year, from `year` on, in which day number `day` lies. */
  function YearOf(day: nat, year: nat): (y: nat)
    requires 0 < year < 10000 && DaysBeforeYear(year) <= day < DaysBeforeYear(10000)
    ensures year <= y < 10000 && DaysBeforeYear(y) <= day < DaysBeforeYear(y + 1)
    decreases 10000 - year
  {
    if day < DaysBeforeYear(year + 1) then year else YearOf(day, year + 1)
  }

  function DaysIn(leap: bool, month: nat): nat {
    if month == 2 then if leap then 29 else 28
    else if month in {4, 6, 9, 11} then 30 else 31
  }

  function DaysBeforeMonth(leap: bool, month: nat): nat {
    if month <= 1 then 0 else DaysBeforeMonth(leap, month - 1) + DaysIn(leap, month - 1)
  }

  lemma TwelveMonths(leap: bool)
    ensures DaysBeforeMonth(leap, 13) == if leap then 366 else 365
  {
    assert DaysBeforeMonth(leap, 2) == 31;
    assert DaysBeforeMonth(leap, 3) == if leap then 60 else 59;
    assert DaysBeforeMonth(leap, 5) == DaysBeforeMonth(leap, 3) + 61;
    assert DaysBeforeMonth(leap, 7) == DaysBeforeMonth(leap, 5) + 61;
    assert DaysBeforeMonth(leap, 9) == DaysBeforeMonth(leap, 7) + 62;
    assert DaysBeforeMonth(leap, 11) == DaysBeforeMonth(leap, 9) + 61;
    assert DaysBeforeMonth(leap, 13) == DaysBeforeMonth(leap, 11) + 61;
  }

  function MonthOf(leap: bool, rest: nat, month: nat): (m: nat)
    requires 0 < month < 13 && DaysBeforeMonth(leap, month) <= rest < DaysBeforeMonth(leap, 13)
    ensures month <= m < 13 && DaysBeforeMonth(leap, m) <= rest < DaysBeforeMonth(leap, m + 1)
    decreases 13 - month
  {
    if rest < DaysBeforeMonth(leap, month + 1) then month else MonthOf(leap, rest, month + 1)
  }

  // ---- instants --------------------------------------------------------------------------------------------

  function Two(n: nat): (text: seq<Byte>)
    requires n < 100
    ensures |text| == 2
  {
    [48 + n / 10, 48 + n % 10]
  }

  function ReadTwo(text: seq<Byte>): Option<nat>
    requires |text| == 2
  {
    if 48 <= text[0] < 58 && 48 <= text[1] < 58 then Some(10 * (text[0] - 48) + text[1] - 48) else None
  }

  lemma TwoIsRead(n: nat)
    requires n < 100
    ensures ReadTwo(Two(n)) == Some(n)
  {
  }

  datatype Date = Date(year: nat, month: nat, day: nat)

  predicate OnCalendar(d: Date) {
    0 < d.year < 10000 && 0 < d.month < 13 && 0 < d.day <= DaysIn(Leap(d.year), d.month)
  }

  function DayNumber(d: Date): nat
    requires OnCalendar(d)
  {
    DaysBeforeYear(d.year) + DaysBeforeMonth(Leap(d.year), d.month) + d.day - 1
  }

  /** The date of a day number. */
  function DateOf(day: nat): (d: Date)
    requires day < DaysBeforeYear(10000)
    ensures OnCalendar(d) && DayNumber(d) == day
  {
    var year := YearOf(day, 1);
    NextYear(year);
    TwelveMonths(Leap(year));
    var rest := day - DaysBeforeYear(year);
    var month := MonthOf(Leap(year), rest, 1);
    Date(year, month, rest - DaysBeforeMonth(Leap(year), month) + 1)
  }

  function DateText(d: Date): (text: seq<Byte>)
    requires OnCalendar(d)
    ensures |text| == 10
  {
    Two(d.year / 100) + Two(d.year % 100) + [HYPHEN] + Two(d.month) + [HYPHEN] + Two(d.day)
  }

  function ReadDate(text: seq<Byte>): Option<Date>
    requires |text| == 10
  {
    var century, year, month, day := ReadTwo(text[..2]), ReadTwo(text[2..4]), ReadTwo(text[5..7]), ReadTwo(text[8..]);
    if century.None? || year.None? || month.None? || day.None? || text[4] != HYPHEN || text[7] != HYPHEN then None
    else Some(Date(100 * century.value + year.value, month.value, day.value))
  }

  lemma DateIsRead(d: Date)
    requires OnCalendar(d)
    ensures ReadDate(DateText(d)) == Some(d)
  {
    var text := DateText(d);
    TwoIsRead(d.year / 100);
    TwoIsRead(d.year % 100);
    TwoIsRead(d.month);
    TwoIsRead(d.day);
    assert text[..2] == Two(d.year / 100) && text[2..4] == Two(d.year % 100);
    assert text[5..7] == Two(d.month) && text[8..] == Two(d.day);
  }

  const COLON: Byte := 58

  /** The time of day, in seconds. */
  function TimeText(second: nat): (text: seq<Byte>)
    requires second < 86_400
    ensures |text| == 8
  {
    Two(second / 60 / 60) + [COLON] + Two(second / 60 % 60) + [COLON] + Two(second % 60)
  }

  function ReadTime(text: seq<Byte>): Option<nat>
    requires |text| == 8
  {
    var h, m, s := ReadTwo(text[..2]), ReadTwo(text[3..5]), ReadTwo(text[6..]);
    if h.None? || m.None? || s.None? || text[2] != COLON || text[5] != COLON then None
    else if h.value > 23 || m.value > 59 || s.value > 59 then None
    else Some(60 * (60 * h.value + m.value) + s.value)
  }

  lemma TimeIsRead(second: nat)
    requires second < 86_400
    ensures ReadTime(TimeText(second)) == Some(second)
  {
    var text, minute := TimeText(second), second / 60;
    TwoIsRead(minute / 60);
    TwoIsRead(minute % 60);
    TwoIsRead(second % 60);
    assert second == 60 * minute + second % 60 && minute == 60 * (minute / 60) + minute % 60;
    assert text[..2] == Two(second / 60 / 60) && text[3..5] == Two(second / 60 % 60) && text[6..] == Two(second % 60);
  }

  const POINT: Byte := 46

  /** A point and six digits. */
  function FractionText(micro: nat): (text: seq<Byte>)
    requires micro < 1_000_000
    ensures |text| == 7
  {
    [POINT] + Two(micro / 100 / 100) + Two(micro / 100 % 100) + Two(micro % 100)
  }

  function ReadFraction(text: seq<Byte>): Option<nat>
    requires |text| == 7
  {
    var a, b, c := ReadTwo(text[1..3]), ReadTwo(text[3..5]), ReadTwo(text[5..]);
    if a.None? || b.None? || c.None? || text[0] != POINT then None
    else Some(100 * (100 * a.value + b.value) + c.value)
  }

  lemma FractionIsRead(micro: nat)
    requires micro < 1_000_000
    ensures ReadFraction(FractionText(micro)) == Some(micro)
  {
    var text, high := FractionText(micro), micro / 100;
    TwoIsRead(high / 100);
    TwoIsRead(high % 100);
    TwoIsRead(micro % 100);
    assert micro == 100 * high + micro % 100 && high == 100 * (high / 100) + high % 100;
    assert text[1..3] == Two(high / 100) && text[3..5] == Two(high % 100) && text[5..] == Two(micro % 100);
  }

  const LETTER_T: Byte := 84

  /** +00:00 */
  const UTC: seq<Byte> := [43, 48, 48, 58, 48, 48]

  const SECOND := 1_000_000

  const DAY := 86_400

  function Joined(date: seq<Byte>, time: seq<Byte>, fraction: seq<Byte>): seq<Byte> {
    date + [LETTER_T] + time + fraction + UTC
  }

  lemma JoinedParts(date: seq<Byte>, time: seq<Byte>, fraction: seq<Byte>)
    requires |date| == 10 && |time| == 8
    ensures var text := Joined(date, time, fraction);
            && |text| == 25 + |fraction| && text[..10] == date && text[10] == LETTER_T && text[11..19] == time
            && text[19..|text| - 6] == fraction && text[|text| - 6..] == UTC
  {
  }

  /** The microseconds are printed only where there are any. */
  function Fraction(micro: nat): seq<Byte>
    requires micro < SECOND
  {
    if micro == 0 then [] else FractionText(micro)
  }

  function ReadMicro(text: seq<Byte>): Option<nat> {
    if text == [] then Some(0) else if |text| == 7 then ReadFraction(text) else None
  }

  function InstantText(t: Instant): (text: seq<Byte>)
    ensures |text| == if t % SECOND == 0 then 25 else 32
  {
    Joined(DateText(DateOf(t / SECOND / DAY)), TimeText(t / SECOND % DAY), Fraction(t % SECOND))
  }

  function ReadInstant(text: seq<Byte>): Option<Instant> {
    if |text| < 25 || text[10] != LETTER_T || text[|text| - 6..] != UTC then None
    else
      var date, time, micro := ReadDate(text[..10]), ReadTime(text[11..19]), ReadMicro(text[19..|text| - 6]);
      if date.None? || time.None? || micro.None? || !OnCalendar(date.value) then None
      else InstantAt(DayNumber(date.value), time.value, micro.value)
  }

  function InstantAt(day: nat, second: nat, micro: nat): Option<Instant> {
    var t := (day * DAY + second) * SECOND + micro;
    if t < INSTANTS then Some(t) else None
  }

  lemma InstantIsItsParts(t: Instant)
    ensures InstantAt(t / SECOND / DAY, t / SECOND % DAY, t % SECOND) == Some(t)
  {
    var seconds := t / SECOND;
    assert t == seconds * SECOND + t % SECOND;
    assert seconds == seconds / DAY * DAY + seconds % DAY;
  }

  /** Every instant of the calendar is read back from its text. */
  lemma InstantIsRead(t: Instant)
    ensures ReadInstant(InstantText(t)) == Some(t)
  {
    var date, second, micro := DateOf(t / SECOND / DAY), t / SECOND % DAY, t % SECOND;
    JoinedParts(DateText(date), TimeText(second), Fraction(micro));
    DateIsRead(date);
    TimeIsRead(second);
    FractionIsRead(micro);
    InstantIsItsParts(t);
  }

  // ---- both together ---------------------------------------------------------------------------------------

  /** The printers and parsers of a cursor. */
  function CursorTexts(): Texts {
    Texts(InstantText, ReadInstant, UuidText, ReadUuid)
  }

  lemma CursorTextsAreLawful()
    ensures Lawful(CursorTexts())
  {
    var x := CursorTexts();
    forall t: Instant ensures x.parseTime(x.ofTime(t)) == Some(t) && |x.ofTime(t)| <= 32 {
      InstantIsRead(t);
    }
    forall i: Uuid ensures x.parseId(x.ofId(i)) == Some(i) && |x.ofId(i)| == 36 && BAR !in x.ofId(i) {
      UuidIsRead(i);
    }
  }

  /** With them every coordinate survives its cursor, and just the encoder's texts are accepted. */
  lemma CursorsAreExact(text: string, c: Coordinate)
    ensures DecodeCursor(CursorTexts(), EncodeCursor(CursorTexts(), c)) == Some(c)
    ensures DecodeCursor(CursorTexts(), text) == Some(c) <==> text == EncodeCursor(CursorTexts(), c)
  {
    CursorTextsAreLawful();
    CursorRoundTrip(CursorTexts(), c);
    OnlyEncodedIsAccepted(CursorTexts(), text, c);
  }

  // ---- printed texts in numbers ------------------------------------------------------------------------------

  /** The lengths of the months. */
  lemma MonthsInFull(leap: bool)
    ensures forall m | 1 <= m <= 12 ::
              DaysIn(leap, m) == [31, if leap then 29 else 28, 31, 30, 31, 30, 31, 31, 30, 31, 30, 31][m - 1]
  {
  }

  /** The next of the month, or the first of the next month, or 1 January of the next year. */
  function NextDate(d: Date): Date {
    if d.day < DaysIn(Leap(d.year), d.month) then d.(day := d.day + 1)
    else if d.month < 12 then Date(d.year, d.month + 1, 1) else Date(d.year + 1, 1, 1)
  }

  lemma NextDateIsNext(d: Date)
    requires OnCalendar(d) && NextDate(d).year < 10000
    ensures OnCalendar(NextDate(d)) && DayNumber(NextDate(d)) == DayNumber(d) + 1
  {
    NextYear(d.year);
    TwelveMonths(Leap(d.year));
    assert d.month == 12 ==> DaysBeforeMonth(Leap(d.year), 13) == DaysBeforeMonth(Leap(d.year), 12) + 31;
  }

  lemma StillOnCalendar(d: Date)
    requires OnCalendar(d) && DayNumber(d) + 1 < DaysBeforeYear(10000)
    ensures NextDate(d).year < 10000
  {
    if NextDate(d).year == 10000 { LastDay(d); }
  }

  /** The calendar starts on 1 January of year 1, and goes from date to date. */
  lemma CalendarAdvances(day: nat)
    requires day + 1 < DaysBeforeYear(10000)
    ensures day == 0 ==> DateOf(day) == Date(1, 1, 1)
    ensures DateOf(day + 1) == NextDate(DateOf(day))
  {
    if day == 0 { FirstDay(day); }
    StillOnCalendar(DateOf(day));
    NextDateIsNext(DateOf(day));
    SameDate(DateOf(day + 1), NextDate(DateOf(day)));
  }

  lemma FirstDay(day: nat)
    requires day == 0 && day < DaysBeforeYear(10000)
    ensures DateOf(day) == Date(1, 1, 1)
  {
    var first := Date(1, 1, 1);
    assert DayNumber(first) == 0;
    SameDate(DateOf(day), first);
  }

  lemma LastDay(d: Date)
    requires OnCalendar(d) && NextDate(d).year == 10000
    ensures DayNumber(d) + 1 == DaysBeforeYear(10000)
  {
    NextYear(9999);
    TwelveMonths(Leap(9999));
    assert DaysBeforeMonth(Leap(9999), 13) == DaysBeforeMonth(Leap(9999), 12) + 31;
  }

  lemma {:induction false} LaterYears(y: nat, z: nat)
    requires 0 < y <= z
    ensures DaysBeforeYear(y) + 365 * (z - y) <= DaysBeforeYear(z)
    decreases z
  {
    if y < z {
      LaterYears(y, z - 1);
      NextYear(z - 1);
    }
  }

  lemma {:induction false} LaterMonths(leap: bool, m: nat, n: nat)
    requires 0 < m <= n
    ensures DaysBeforeMonth(leap, m) + 28 * (n - m) <= DaysBeforeMonth(leap, n)
    decreases n
  {
    if m < n { LaterMonths(leap, m, n - 1); }
  }

  lemma EarlierYear(a: Date, b: Date)
    requires OnCalendar(a) && OnCalendar(b) && a.year < b.year
    ensures DayNumber(a) < DayNumber(b)
  {
    WithinYear(a);
    WithinYear(b);
    LaterYears(a.year + 1, b.year);
  }

  lemma EarlierMonth(a: Date, b: Date)
    requires OnCalendar(a) && OnCalendar(b) && a.year == b.year && a.month < b.month
    ensures DayNumber(a) < DayNumber(b)
  {
    LaterMonths(Leap(a.year), a.month + 1, b.month);
  }

  /** A day number belongs to one date. */
  lemma SameDate(a: Date, b: Date)
    requires OnCalendar(a) && OnCalendar(b) && DayNumber(a) == DayNumber(b)
    ensures a == b
  {
    if a.year < b.year { EarlierYear(a, b); }
    if b.year < a.year { EarlierYear(b, a); }
    if a.year == b.year && a.month < b.month { EarlierMonth(a, b); }
    if a.year == b.year && b.month < a.month { EarlierMonth(b, a); }
  }

  lemma WithinYear(d: Date)
    requires OnCalendar(d)
    ensures DaysBeforeYear(d.year) <= DayNumber(d) < DaysBeforeYear(d.year + 1)
  {
    NextYear(d.year);
    TwelveMonths(Leap(d.year));
    LaterMonths(Leap(d.year), d.month + 1, 13);
  }

  /** The two decimal digits of a number as the bytes of their characters. */
  lemma TwoInNumbers(n: nat)
    requires n < 100
    ensures Two(n)[0] == '0' as int + n / 10 && Two(n)[1] == '0' as int + n % 10
  {
  }

  /** The bytes of a date, a time of day and a fraction in ASCII: the pairs of digits with their punctuation. */
  lemma PartsInFull(d: Date, second: nat, micro: nat)
    requires OnCalendar(d) && second < 86_400 && micro < 1_000_000
    ensures DateText(d)
            == Two(d.year / 100) + Two(d.year % 100) + ['-' as int] + Two(d.month) + ['-' as int] + Two(d.day)
    ensures second / 60 / 60 < 24
            && TimeText(second)
               == Two(second / 60 / 60) + [':' as int] + Two(second / 60 % 60) + [':' as int] + Two(second % 60)
    ensures micro / 100 / 100 < 100
            && Fraction(micro)
               == if micro == 0 then []
                  else ['.' as int] + Two(micro / 100 / 100) + Two(micro / 100 % 100) + Two(micro % 100)
  {
  }

  /** An instant is printed as its date, the letter T, its time of day, its fraction and the offset +00:00. */
  lemma InstantTextInFull(t: Instant)
    ensures var text := InstantText(t);
            && text[..10] == DateText(DateOf(t / 1_000_000 / 86_400)) && text[10] == 'T' as int
            && text[11..19] == TimeText(t / 1_000_000 % 86_400)
            && text[19..|text| - 6] == Fraction(t % 1_000_000)
            && text[|text| - 6..] == ['+' as int, '0' as int, '0' as int, ':' as int, '0' as int, '0' as int]
  {
    JoinedParts(DateText(DateOf(t / SECOND / DAY)), TimeText(t / SECOND % DAY), Fraction(t % SECOND));
  }

  lemma SplitsTwice(n: nat, a: nat, b: nat, c: nat)
    requires a > 0 && b > 0 && c == a * b
    ensures c > 0 && n / a / b == n / c
  {
    var q, r := n / a, n % a;
    var k, s := q / b, q % b;
    Recompose(n, a);
    Recompose(q, b);
    MulMono(a, s, b - 1);
    MulMono(a, 1, b);
    Distribute(a, b * k, s);
    Associate(a, b, k);
    Distribute(a, b - 1, 1);
    QuotientIs(n, c, k, a * s + r);
  }

  lemma Distribute(a: int, x: int, y: int)
    ensures a * (x + y) == a * x + a * y
  {
  }

  lemma Associate(a: int, b: int, k: int)
    ensures a * (b * k) == (a * b) * k
  {
  }

  lemma Recompose(n: nat, a: nat)
    requires a > 0
    ensures n == a * (n / a) + n % a && n % a < a
  {
  }

  lemma MulMono(c: nat, x: int, y: int)
    requires x <= y
    ensures c * x <= c * y
  {
    assert c * (y - x) >= 0;
    assert c * (y - x) == c * y - c * x;
  }

  lemma QuotientIs(n: nat, c: nat, k: nat, r: nat)
    requires c > 0 && n == c * k + r && r < c
    ensures n / c == k
  {
    var q := n / c;
    Recompose(n, c);
    if q < k { MulMono(c, q + 1, k); }
    if k < q { MulMono(c, k + 1, q); }
  }

  /** The k-th of 32 hexadecimal digits of an identifier stands for sixteen to the power of what follows. */
  lemma {:induction false} DigitAt(n: nat, width: nat, k: nat)
    requires k < width
    ensures Power(width - 1 - k) > 0 && Positional(n, width)[k] as int == n / Power(width - 1 - k) % 16
    decreases width
  {
    PowerIsPositive(width - 1 - k);
    if k < width - 1 {
      DigitAt(n / 16, width - 1, k);
      SplitsTwice(n, 16, Power(width - 2 - k), Power(width - 1 - k));
    }
  }

  lemma {:induction false} PowerIsPositive(n: nat)
    ensures Power(n) > 0
  {
    if n > 0 { PowerIsPositive(n - 1); }
  }

  /** The digits are printed as 0 to 9 and a to f. */
  lemma HexInFull(d: Nibble)
    ensures HexByte(d) == "0123456789abcdef"[d] as int
  {
  }

  /** An identifier is printed as its 32 digits in groups of 8, 4, 4, 4 and 12, with hyphens between. */
  lemma UuidTextInFull(i: Uuid)
    ensures var text, h := UuidText(i), HexText(Positional(i, 32));
            && |text| == 36 && text[..8] == h[..8] && text[9..13] == h[8..12] && text[14..18] == h[12..16]
            && text[19..23] == h[16..20] && text[24..] == h[20..]
            && text[8] == '-' as int && text[13] == '-' as int && text[18] == '-' as int && text[23] == '-' as int
  {
    var h := HexText(Positional(i, 32));
    PartsOf(h[..8], h[8..12], h[12..16], h[16..20], h[20..], UuidText(i));
  }
}
