/** Stream identifiers: their 16-byte keys, their order and their text (src/stream.h, src/stream.cpp). */
module StreamIds {
  import opened Bytes
  import opened Decimal
  import opened LexOrder
  import opened Words

  type Word64 = n: int | 0 <= n < TWO64

  datatype StreamID = StreamID(ms: Word64, num: Word64) {
    /** isGreater. */
    predicate Greater(other: StreamID) {
      if ms > other.ms then true else if ms < other.ms then false else num > other.num
    }
  }

  const ZERO_ID := StreamID(0, 0)
  const MAX_ID := StreamID(UINT64_MAX, UINT64_MAX)

  // ----- the binary key

  /** One half of toBinary: (n >> 56) & 0xFF down to n & 0xFF. */
  function BigEndian(n: Word64): (r: Bytes)
    ensures |r| == 8
  {
    [B7(n), B6(n), B5(n), B4(n), B3(n), B2(n), B1(n), B0(n)]
  }

  /** One half of fromBinary. */
  function FromBigEndian(b: Bytes): (n: Word64)
    requires |b| == 8
  {
    0x1_0000_0000 * Word32(b[3], b[2], b[1], b[0]) + Word32(b[7], b[6], b[5], b[4])
  }

  /** toBinary. */
  function ToBinary(id: StreamID): (r: Bytes)
    ensures |r| == 16
  { BigEndian(id.ms) + BigEndian(id.num) }

  /** fromBinary. */
  function FromBinary(b: Bytes): StreamID
    requires |b| >= 16
  {
    StreamID(FromBigEndian(b[..8]), FromBigEndian(b[8..16]))
  }

  lemma BigEndianRoundTrip(n: Word64)
    ensures FromBigEndian(BigEndian(n)) == n
  {
    Halves(n);
    Word32OfBytes(n % 0x1_0000_0000);
    Word32OfBytes(n / 0x1_0000_0000);
  }

  /** fromBinary inverts toBinary. */
  lemma BinaryRoundTrip(id: StreamID)
    ensures FromBinary(ToBinary(id)) == id
  {
    BigEndianRoundTrip(id.ms);
    BigEndianRoundTrip(id.num);
    assert ToBinary(id)[..8] == BigEndian(id.ms) && ToBinary(id)[8..16] == BigEndian(id.num);
  }

  /** The number with the given base-256 digits, most significant first. */
  function Horner(b: Bytes): nat { if b == [] then 0 else 0x100 * Horner(b[..|b| - 1]) + b[|b| - 1] }

  lemma HornerStep(b: Bytes, k: nat)
    requires k < |b|
    ensures Horner(b[..k + 1]) == 0x100 * Horner(b[..k]) + b[k]
  {
    assert b[..k + 1][..k] == b[..k];
  }

  lemma FourMore(b: Bytes, k: nat)
    requires k + 4 <= |b|
    ensures Horner(b[..k + 4]) == 0x1_0000_0000 * Horner(b[..k]) + Word32(b[k + 3], b[k + 2], b[k + 1], b[k])
  {
    hide Horner;
    HornerStep(b, k);
    HornerStep(b, k + 1);
    HornerStep(b, k + 2);
    HornerStep(b, k + 3);
  }

  lemma HornerIs(b: Bytes, n: Word64)
    requires b == BigEndian(n)
    ensures Horner(b) == n
  {
    hide Horner, BigEndian, Word32;
    BigEndianRoundTrip(n);
    HornerNone(b);
    FourMore(b, 0);
    FourMore(b, 4);
    assert b[..8] == b;
  }

  lemma HornerNone(b: Bytes)
    ensures Horner(b[..0]) == 0
  {}

  /** With equal lengths the first parts decide, and the last parts if they are equal. */
  lemma {:induction false} LtByParts(p: Bytes, x: Bytes, q: Bytes, y: Bytes)
    requires |p| == |q|
    ensures Lt(p + x, q + y) <==> Lt(p, q) || (p == q && Lt(x, y))
  {
    if p == [] {
      assert p + x == x && q + y == y;
    } else {
      assert (p + x)[1..] == p[1..] + x && (q + y)[1..] == q[1..] + y;
      assert p == [p[0]] + p[1..] && q == [q[0]] + q[1..];
      LtByParts(p[1..], x, q[1..], y);
    }
  }

  lemma {:induction false} HornerOrder(a: Bytes, b: Bytes)
    requires |a| == |b|
    ensures Lt(a, b) <==> Horner(a) < Horner(b)
    ensures a == b <==> Horner(a) == Horner(b)
  {
    if a != [] {
      var n := |a| - 1;
      HornerOrder(a[..n], b[..n]);
      assert a == a[..n] + [a[n]] && b == b[..n] + [b[n]];
      LtByParts(a[..n], [a[n]], b[..n], [b[n]]);
    }
  }

  /** The byte order of the keys is the order of the identifiers. */
  lemma BinaryOrder(a: StreamID, b: StreamID)
    ensures Lt(ToBinary(a), ToBinary(b)) <==> b.Greater(a)
    ensures ToBinary(a) == ToBinary(b) <==> a == b
  {
    hide BigEndian, Horner, Lt;
    BinaryRoundTrip(a);
    BinaryRoundTrip(b);
    LtByParts(BigEndian(a.ms), BigEndian(a.num), BigEndian(b.ms), BigEndian(b.num));
    HornerOrder(BigEndian(a.ms), BigEndian(b.ms));
    HornerOrder(BigEndian(a.num), BigEndian(b.num));
    HornerIs(BigEndian(a.ms), a.ms);
    HornerIs(BigEndian(b.ms), b.ms);
    HornerIs(BigEndian(a.num), a.num);
    HornerIs(BigEndian(b.num), b.num);
  }

  // ----- text

  const PLUS: Byte := 43

  /** toString. */
  function ToText(id: StreamID): Bytes { Print(id.ms) + [MINUS] + Print(id.num) }

  /** find('-'). */
  function DashPos(s: Bytes): (r: Option<nat>)
    ensures r.Some? ==> r.value < |s| && s[r.value] == MINUS
    ensures r.None? <==> MINUS !in s
  {
    if s == [] then None
    else if s[0] == MINUS then Some(0)
    else
      match DashPos(s[1..])
      case None => None
      case Some(p) => Some(p + 1)
  }

  /** The parts of a text before and after its first dash. */
  function SplitAtDash(s: Bytes): Option<(Bytes, Bytes)> {
    match DashPos(s)
    case None => None
    case Some(p) => Some((s[..p], s[p + 1..]))
  }

  lemma {:induction false} DashAt(a: Bytes, b: Bytes)
    requires MINUS !in a
    ensures DashPos(a + [MINUS] + b) == Some(|a|)
    ensures SplitAtDash(a + [MINUS] + b) == Some((a, b))
  {
    var s := a + [MINUS] + b;
    if a != [] {
      DashAt(a[1..], b);
      assert s[1..] == a[1..] + [MINUS] + b;
    }
    assert s[..|a|] == a && s[|a| + 1..] == b;
  }

  /** What fromStringForSearch makes of a text. */
  function SearchID(text: Bytes, isEndKey: bool): Option<StreamID> {
    if text == [MINUS] then Some(ZERO_ID)
    else if text == [PLUS] then Some(MAX_ID)
    else IdOfText(if DashPos(text).None? then text + [MINUS] + Print(if isEndKey then UINT64_MAX else 0) else text)
  }

  function IdOfText(s: Bytes): Option<StreamID> {
    match SplitAtDash(s)
    case None => None
    case Some((ms, num)) => IdOf(ms, num)
  }

  function IdOf(ms: Bytes, num: Bytes): Option<StreamID> {
    if Positive(ms).Some? && Positive(num).Some? then Some(StreamID(Positive(ms).value, Positive(num).value)) else None
  }

  lemma PrintedNumber(n: nat)
    ensures MINUS !in Print(n) && PLUS !in Print(n) && STAR !in Print(n) && |Print(n)| > 0
    ensures Print(n) != [MINUS] && Print(n) != [PLUS] && Print(n) != [STAR]
  {
    PrintIsCanonical(n);
    assert [MINUS][0] == MINUS && [PLUS][0] == PLUS && [STAR][0] == STAR;
  }

  lemma IdOfPrinted(ms: Word64, num: Word64)
    ensures IdOfText(Print(ms) + [MINUS] + Print(num)) == Some(StreamID(ms, num))
  {
    PrintedNumber(ms);
    DashAt(Print(ms), Print(num));
    PositiveOfPrint(ms);
    PositiveOfPrint(num);
  }

  /** Parsing the text of an identifier gives it back, without overflow. */
  lemma TextRoundTrip(id: StreamID, isEndKey: bool)
    ensures SearchID(ToText(id), isEndKey) == Some(id)
  {
    hide Print, IdOfText;
    PrintedNumber(id.ms);
    PrintedNumber(id.num);
    IdOfPrinted(id.ms, id.num);
    assert ToText(id)[|Print(id.ms)|] == MINUS && |ToText(id)| >= 3;
  }

  /** A text without a dash is a millisecond: its first identifier as a start, its last one as an end. `-` and `+` are the ends of all. */
  lemma MillisecondText(n: Word64, isEndKey: bool)
    ensures SearchID(Print(n), isEndKey) == Some(StreamID(n, if isEndKey then UINT64_MAX else 0))
    ensures SearchID([MINUS], isEndKey) == Some(StreamID(0, 0)) && SearchID([PLUS], isEndKey) == Some(StreamID(UINT64_MAX, UINT64_MAX))
  {
    hide Print, IdOfText;
    PrintedNumber(n);
    IdOfPrinted(n, if isEndKey then UINT64_MAX else 0);
  }

  /** What fromString makes of a text: `last` is lastInsertStreamID and `now` the clock. */
  function InsertID(text: Bytes, last: StreamID, now: Word64): Option<StreamID> {
    if text == [STAR] then Some(StreamID(now, if last.ms == now then 1 else 0))
    else
      match SplitAtDash(text)
      case None => None
      case Some((ms, num)) =>
        if num != [STAR] then IdOf(ms, num)
        else
          match Positive(ms)
          case None => None
          case Some(m) => Some(StreamID(m, if last.ms == m then (last.num + 1) % TWO64 else 0))
  }

  function PartialText(ms: Word64): Bytes { Print(ms) + [MINUS, STAR] }

  /** A text that names an identifier in full, or only its millisecond. */
  lemma InsertTexts(id: StreamID, last: StreamID, now: Word64)
    ensures InsertID(ToText(id), last, now) == Some(id)
    ensures InsertID(PartialText(id.ms), last, now)
         == Some(StreamID(id.ms, if last.ms == id.ms then (last.num + 1) % TWO64 else 0))
  {
    hide InsertID, ToText, PartialText;
    InsertFullText(id, last, now);
    InsertPartialText(id.ms, last, now);
  }

  lemma InsertFullText(id: StreamID, last: StreamID, now: Word64)
    ensures InsertID(ToText(id), last, now) == Some(id)
  {
    hide Print, Positive;
    var a, b := Print(id.ms), Print(id.num);
    PrintedNumber(id.ms);
    PrintedNumber(id.num);
    PositiveOfPrint(id.ms);
    PositiveOfPrint(id.num);
    DashAt(a, b);
    assert ToText(id)[|a|] == MINUS && |ToText(id)| >= 3;
  }

  lemma InsertPartialText(ms: Word64, last: StreamID, now: Word64)
    ensures InsertID(PartialText(ms), last, now) == Some(StreamID(ms, if last.ms == ms then (last.num + 1) % TWO64 else 0))
  {
    hide Print, Positive;
    var a := Print(ms);
    PrintedNumber(ms);
    PositiveOfPrint(ms);
    DashAt(a, [STAR]);
    assert PartialText(ms) == a + [MINUS] + [STAR];
  }
}
