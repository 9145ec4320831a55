/**
 * The entry format of a listpack (src/listpack.h, src/listpack.cpp).
 *
 * An entry is an encoding (a tag, length bytes for strings, the payload)
 * followed by a back length that a reader coming from the right can decode.
 * Functions on `e` take the bytes from the entry's first byte onward.
 */
module ListpackCodec {
  import opened Bytes
  import opened Decimal
  import opened Words

  const EOF: Byte := 0xFF
  const HEADER_SIZE := 6

  // ----- tags: the first bytes that each mask test of listpack.h selects

  predicate Is7BitUint(b: Byte) { b < 0x80 }
  predicate Is6BitStr(b: Byte) { 0x80 <= b < 0xC0 }
  predicate Is13BitInt(b: Byte) { 0xC0 <= b < 0xE0 }
  predicate Is12BitStr(b: Byte) { 0xE0 <= b < 0xF0 }
  predicate Is32BitStr(b: Byte) { b == 0xF0 }
  predicate Is16BitInt(b: Byte) { b == 0xF1 }
  predicate Is24BitInt(b: Byte) { b == 0xF2 }
  predicate Is32BitInt(b: Byte) { b == 0xF3 }
  predicate Is64BitInt(b: Byte) { b == 0xF4 }

  /** The ranges above are what the masks of listpack.h test. */
  lemma TagMasks(b: bv8)
    ensures b & 0x80 == 0 <==> b < 0x80
    ensures b & 0xC0 == 0x80 <==> 0x80 <= b < 0xC0
    ensures b & 0xE0 == 0xC0 <==> 0xC0 <= b < 0xE0
    ensures b & 0xF0 == 0xE0 <==> 0xE0 <= b < 0xF0
  {}

  // ----- sizes

  /** lpCurrentEncodedSizeBytes: the tag and length bytes; no case for 64-bit integers. */
  function HeaderBytes(b: Byte): nat {
    if Is7BitUint(b) then 1
    else if Is13BitInt(b) then 1
    else if Is16BitInt(b) then 1
    else if Is24BitInt(b) then 1
    else if Is32BitInt(b) then 1
    else if Is6BitStr(b) then 1
    else if Is12BitStr(b) then 2
    else if Is32BitStr(b) then 5
    else if b == EOF then 1
    else 0
  }

  /** The bytes EncodedSize looks at are there. */
  predicate HeaderReadable(e: Bytes) { |e| > 0 && HeaderBytes(e[0]) <= |e| }

  /** A uint32 sum whose exact value is below 2^33. */
  function Wrap32(n: nat): nat
    requires n < 0x2_0000_0000
  { if n > UINT32_MAX then n - 0x1_0000_0000 else n }

  /** lpCurrentEncodedSizeUnsafe: tag, length bytes and payload, in uint32 arithmetic. */
  function EncodedSize(e: Bytes): nat
    requires HeaderReadable(e)
  {
    if Is7BitUint(e[0]) then 1
    else if Is13BitInt(e[0]) then 2
    else if Is16BitInt(e[0]) then 3
    else if Is24BitInt(e[0]) then 4
    else if Is32BitInt(e[0]) then 5
    else if Is64BitInt(e[0]) then 9
    else if Is6BitStr(e[0]) then 1 + e[0] % 0x40
    else if Is12BitStr(e[0]) then 2 + (e[0] as int % 0x10 * 0x100 + e[1])
    else if Is32BitStr(e[0]) then Wrap32(5 + Word32(e[1], e[2], e[3], e[4]))
    else if e[0] == EOF then 1
    else 0
  }

  /** lpEncodeBacklenBytes. */
  function BacklenBytes(l: nat): (w: nat)
    ensures 1 <= w <= 5
  {
    if l <= 127 then 1 else if l < 16383 then 2 else if l < 2097151 then 3
    else if l < 268435455 then 4 else 5
  }

  /** lpSkip's step over the entry that starts `e`. */
  function EntrySize(e: Bytes): nat
    requires HeaderReadable(e)
  { EncodedSize(e) + BacklenBytes(EncodedSize(e)) }

  /** `e` is one complete encoding, not the end marker. */
  predicate IsEncoding(e: Bytes) { HeaderReadable(e) && e[0] != EOF && EncodedSize(e) == |e| }

  /** The encoding lpCurrentEncodedSizeBytes has no case for. */
  predicate IsWide(e: Bytes) { |e| > 0 && Is64BitInt(e[0]) }

  lemma SizeIsLocal(e: Bytes, tail: Bytes)
    requires IsEncoding(e)
    ensures HeaderReadable(e + tail) && EncodedSize(e + tail) == |e|
    ensures 1 <= |e| <= UINT32_MAX
  {}

  // ----- back lengths

  /** lpEncodeBacklen's bytes. */
  function Backlen(l: nat): (b: Bytes)
    requires l < 0x8_0000_0000
    ensures |b| == BacklenBytes(l)
  {
    if l <= 127 then [l]
    else if l < 16383 then [l / 0x80, l % 0x80 + 0x80]
    else if l < 2097151 then [l / 0x4000, l / 0x80 % 0x80 + 0x80, l % 0x80 + 0x80]
    else if l < 268435455 then
      [l / 0x20_0000, l / 0x4000 % 0x80 + 0x80, l / 0x80 % 0x80 + 0x80, l % 0x80 + 0x80]
    else
      [l / 0x1000_0000, l / 0x20_0000 % 0x80 + 0x80, l / 0x4000 % 0x80 + 0x80, l / 0x80 % 0x80 + 0x80, l % 0x80 + 0x80]
  }

  /** The bytes of a back length, plainly: seven bits each, the highest first, and only the first byte below 0x80. */
  lemma BacklenMeans(l: nat)
    requires l < 0x8_0000_0000
    ensures var b := Backlen(l);
            && b[0] < 0x80 && (forall i :: 0 < i < |b| ==> b[i] >= 0x80)
            && (if |b| == 1 then b[0]
                else if |b| == 2 then 0x80 * b[0] as int + (b[1] as int - 0x80)
                else if |b| == 3 then 0x80 * (0x80 * b[0] as int + (b[1] as int - 0x80)) + (b[2] as int - 0x80)
                else if |b| == 4 then 0x80 * (0x80 * (0x80 * b[0] as int + (b[1] as int - 0x80)) + (b[2] as int - 0x80)) + (b[3] as int - 0x80)
                else 0x80 * (0x80 * (0x80 * (0x80 * b[0] as int + (b[1] as int - 0x80)) + (b[2] as int - 0x80)) + (b[3] as int - 0x80))
                     + (b[4] as int - 0x80)) == l
  {
    Shifts(l);
  }

  method LpEncodeBacklen(buf: array<Byte>, l: nat) returns (n: nat)
    requires buf.Length >= 5 && l < 0x8_0000_0000
    modifies buf
    ensures n == BacklenBytes(l) && buf[..n] == Backlen(l)
  {
    if l <= 127 {
      buf[0] := l;
      return 1;
    } else if l < 16383 {
      buf[0], buf[1] := l / 0x80, l % 0x80 + 0x80;
      return 2;
    } else if l < 2097151 {
      buf[0], buf[1], buf[2] := l / 0x4000, l / 0x80 % 0x80 + 0x80, l % 0x80 + 0x80;
      return 3;
    } else if l < 268435455 {
      buf[0], buf[1] := l / 0x20_0000, l / 0x4000 % 0x80 + 0x80;
      buf[2], buf[3] := l / 0x80 % 0x80 + 0x80, l % 0x80 + 0x80;
      return 4;
    } else {
      buf[0], buf[1] := l / 0x1000_0000, l / 0x20_0000 % 0x80 + 0x80;
      buf[2], buf[3], buf[4] := l / 0x4000 % 0x80 + 0x80, l / 0x80 % 0x80 + 0x80, l % 0x80 + 0x80;
      return 5;
    }
  }

  /** Reading right to left from `p`, with `k` bytes read already; None when a sixth byte would be needed. */
  function BacklenFrom(s: Bytes, p: int, k: nat): Option<nat>
    requires k <= 4 && 4 - k <= p < |s|
    decreases 4 - k
  {
    if s[p] < 0x80 then Some(s[p])
    else if k == 4 then None
    else match BacklenFrom(s, p - 1, k + 1)
      case None => None
      case Some(v) => Some(s[p] % 0x80 + 0x80 * v)
  }

  /** lpDecodeBacklen's result. */
  function DecodedBacklen(s: Bytes, p: int): nat
    requires 4 <= p < |s|
  {
    match BacklenFrom(s, p, 0)
    case None => UINT64_MAX
    case Some(v) => v
  }

  /** The sum in progress when the bytes still to read denote `rest`. */
  function Accumulated(value: nat, scale: nat, rest: Option<nat>): Option<nat> {
    match rest
    case None => None
    case Some(v) => Some(value + scale * v)
  }

  lemma AccumulateStep(s: Bytes, q: nat, k: nat, value: nat, scale: nat)
    requires k <= 4 && 4 - k <= q < |s|
    ensures Accumulated(value, scale, BacklenFrom(s, q, k)) ==
            var sum := value + s[q] % 0x80 * scale;
            if s[q] < 0x80 then Some(sum)
            else if k == 4 then None
            else Accumulated(sum, scale * 0x80, BacklenFrom(s, q - 1, k + 1))
  {
    if s[q] >= 0x80 && k < 4 {
      var rest := BacklenFrom(s, q - 1, k + 1);
      if rest.Some? { Distribute(value, scale, s[q] % 0x80, rest.value); }
    }
  }

  lemma Distribute(value: nat, scale: nat, low: nat, v: nat)
    ensures (value + low * scale) + scale * 0x80 * v == value + scale * (low + 0x80 * v)
  {}

  /** lpDecodeBacklen: never moves more than four bytes to the left of `p`. */
  method LpDecodeBacklen(lp: array<Byte>, p: nat) returns (value: nat)
    requires 4 <= p < lp.Length
    ensures value == DecodedBacklen(lp[..], p)
  {
    var q, k := p, 0;
    var scale: nat := 1;  // 1 << shift
    value := 0;
    while true
      invariant k <= 4 && q == p - k
      invariant BacklenFrom(lp[..], p, 0) == Accumulated(value, scale, BacklenFrom(lp[..], q, k))
      decreases 4 - k
    {
      AccumulateStep(lp[..], q, k, value, scale);
      value := value + lp[q] % 0x80 * scale;
      if lp[q] < 0x80 { return; }
      if k == 4 { return UINT64_MAX; }
      scale, k, q := scale * 0x80, k + 1, q - 1;
    }
  }

  lemma BacklenRoundTrip(s: Bytes, q: nat, l: nat)
    requires l < 0x8_0000_0000
    requires 5 <= q <= |s| && s[q - BacklenBytes(l)..q] == Backlen(l)
    ensures DecodedBacklen(s, q - 1) == l
  {
    var w := BacklenBytes(l);
    forall i | 0 <= i < w ensures s[q - w + i] == Backlen(l)[i] {
      assert s[q - w + i] == s[q - w..q][i];
    }
    BacklenDecodes(s, q, l, 0);
  }

  /** `l >> 7 * k`. */
  function ShiftedBy7(l: nat, k: nat): nat
    requires k <= 4
  { if k == 0 then l else ShiftedBy7(l, k - 1) / 0x80 }

  lemma Shifts(l: nat)
    ensures ShiftedBy7(l, 0) == l && ShiftedBy7(l, 1) == l / 0x80
    ensures ShiftedBy7(l, 2) == l / 0x4000
    ensures ShiftedBy7(l, 3) == l / 0x20_0000
    ensures ShiftedBy7(l, 4) == l / 0x1000_0000
  {
    DivDiv(l, 0x80, 0x80);
    DivDiv(l, 0x4000, 0x80);
    DivDiv(l, 0x20_0000, 0x80);
    assert ShiftedBy7(l, 2) == ShiftedBy7(l, 1) / 0x80;
  }

  /** The byte read `k` steps from the right holds bits 7k..7k+6, and continues unless it is the last. */
  lemma BacklenDigit(l: nat, k: nat)
    requires l < 0x8_0000_0000 && k < BacklenBytes(l)
    ensures var b, w := Backlen(l), BacklenBytes(l);
            if k == w - 1 then b[0] == ShiftedBy7(l, k) < 0x80
            else b[w - 1 - k] == ShiftedBy7(l, k) % 0x80 + 0x80
  {
    Shifts(l);
    hide ShiftedBy7;
  }

  lemma {:induction false} BacklenDecodes(s: Bytes, q: nat, l: nat, k: nat)
    requires l < 0x8_0000_0000 && k < BacklenBytes(l) && 5 <= q <= |s|
    requires forall i :: 0 <= i < BacklenBytes(l) ==> s[q - BacklenBytes(l) + i] == Backlen(l)[i]
    ensures BacklenFrom(s, q - 1 - k, k) == Some(ShiftedBy7(l, k))
    decreases 4 - k
  {
    hide Backlen;
    var w := BacklenBytes(l);
    BacklenDigit(l, k);
    hide BacklenBytes;
    assert s[q - w + (w - 1 - k)] == Backlen(l)[w - 1 - k];
    if k < w - 1 { BacklenDecodes(s, q, l, k + 1); }
  }

  // ----- encoding elements

  /** The unsigned word of `width` values that stands for `v`. */
  function Unsigned(v: int, width: nat): nat
    requires 0 <= v + width
  { if v < 0 then v + width else v }

  /** lpEncodeIntegerGetType's bytes: the narrowest two's-complement form of `v`. */
  function EncodedInt(v: int): Bytes
    requires INT64_MIN <= v <= INT64_MAX
  {
    if 0 <= v <= 127 then [v]
    else if -4096 <= v <= 4095 then var u := Unsigned(v, 0x2000); [u / 0x100 + 0xC0, u % 0x100]
    else if -32768 <= v <= 32767 then var u := Unsigned(v, 0x1_0000); [0xF1, B0(u), B1(u)]
    else if -8388608 <= v <= 8388607 then
      var u := Unsigned(v, 0x100_0000); [0xF2, B0(u), B1(u), B2(u)]
    else if -2147483648 <= v <= 2147483647 then
      var u := Unsigned(v, 0x1_0000_0000); [0xF3, B0(u), B1(u), B2(u), B3(u)]
    else
      var u := Unsigned(v, TWO64);
      [0xF4, B0(u), B1(u), B2(u), B3(u), B4(u), B5(u), B6(u), B7(u)]
  }

  /** lpEncodeIntegerGetType. */
  method LpEncodeInteger(value: int, intenc: array<Byte>) returns (enclen: nat)
    requires INT64_MIN <= value <= INT64_MAX && intenc.Length >= 9
    modifies intenc
    ensures enclen == |EncodedInt(value)| <= 9 && intenc[..enclen] == EncodedInt(value)
  {
    var v := value;
    if 0 <= v <= 127 {
      intenc[0] := v;
      return 1;
    }
    if -4096 <= v <= 4095 {
      if v < 0 { v := 0x2000 + v; }
      intenc[0], intenc[1] := v / 0x100 + 0xC0, v % 0x100;
      return 2;
    } else if -32768 <= v <= 32767 {
      if v < 0 { v := 0x1_0000 + v; }
      Word16OfBytes(v);
      intenc[0], intenc[1], intenc[2] := 0xF1, v % 0x100, v / 0x100;
      return 3;
    } else if -8388608 <= v <= 8388607 {
      if v < 0 { v := 0x100_0000 + v; }
      Word24OfBytes(v);
      intenc[0], intenc[1], intenc[2], intenc[3] := 0xF2, v % 0x100, v / 0x100 % 0x100, v / 0x1_0000;
      return 4;
    }
    enclen := LpEncodeLongInteger(v, intenc);
  }

  /** The last two branches of lpEncodeInteger. */
  method LpEncodeLongInteger(value: int, intenc: array<Byte>) returns (enclen: nat)
    requires INT64_MIN <= value <= INT64_MAX && !(-8388608 <= value <= 8388607) && intenc.Length >= 9
    modifies intenc
    ensures enclen == |EncodedInt(value)| <= 9 && intenc[..enclen] == EncodedInt(value)
  {
    var v := value;
    if -2147483648 <= v <= 2147483647 {
      if v < 0 { v := 0x1_0000_0000 + v; }
      Word32OfBytes(v);
      intenc[0], intenc[1], intenc[2] := 0xF3, v % 0x100, v / 0x100 % 0x100;
      intenc[3], intenc[4] := v / 0x1_0000 % 0x100, v / 0x100_0000;
      return 5;
    } else {
      var uv := Unsigned(v, TWO64);
      intenc[0], intenc[1], intenc[2], intenc[3], intenc[4] := 0xF4, B0(uv), B1(uv), B2(uv), B3(uv);
      intenc[5], intenc[6], intenc[7], intenc[8] := B4(uv), B5(uv), B6(uv), B7(uv);
      return 9;
    }
  }

  /** The tag and length bytes of a string of `len` bytes. */
  function StrHeader(len: nat): Bytes
    requires len <= UINT32_MAX
  {
    if len < 64 then [len + 0x80]
    else if len < 4096 then [len / 0x100 + 0xE0, len % 0x100]
    else [0xF0, B0(len), B1(len), B2(len), B3(len)]
  }

  /** lpEncodeString's bytes. */
  function EncodedStr(s: Bytes): Bytes
    requires |s| <= UINT32_MAX
  { StrHeader(|s|) + s }

  /** What lpEncodeGetType followed by the write in lpInsert stores for the string `s`. */
  function Encoded(s: Bytes): Bytes
    requires |s| <= UINT32_MAX
  {
    match Int64Of(s)
    case Some(v) => Int64Range(s); EncodedInt(v)
    case None => EncodedStr(s)
  }

  lemma Int64Range(s: Bytes)
    ensures Int64Of(s).Some? ==> INT64_MIN <= Int64Of(s).value <= INT64_MAX
  {}

  /**
   * The bytes of an integer, plainly: the value itself, or two's complement, with 13 bits the high byte first behind
   * three bits of tag, and with more the low byte first behind a byte of tag.
   */
  lemma IntBytes(v: int)
    requires INT64_MIN <= v <= INT64_MAX
    ensures var e := EncodedInt(v);
            if 0 <= v <= 127 then e == [v]
            else if -0x1000 <= v < 0x1000 then
              |e| == 2 && 0xC0 <= e[0] < 0xE0 && 0x100 * (e[0] as int - 0xC0) + e[1] == v + if v < 0 then 0x2000 else 0
            else if -0x8000 <= v < 0x8000 then
              |e| == 3 && e[0] == 0xF1 && e[1] as int + 0x100 * e[2] as int == v + if v < 0 then 0x1_0000 else 0
            else if -0x80_0000 <= v < 0x80_0000 then
              |e| == 4 && e[0] == 0xF2 && e[1] as int + 0x100 * e[2] as int + 0x1_0000 * e[3] as int == v + if v < 0 then 0x100_0000 else 0
            else if -0x8000_0000 <= v < 0x8000_0000 then
              && |e| == 5 && e[0] == 0xF3
              && e[1] as int + 0x100 * e[2] as int + 0x1_0000 * e[3] as int + 0x100_0000 * e[4] as int == v + if v < 0 then 0x1_0000_0000 else 0
            else
              && |e| == 9 && e[0] == 0xF4
              && e[1] as int + 0x100 * e[2] as int + 0x1_0000 * e[3] as int + 0x100_0000 * e[4] as int
                 + 0x1_0000_0000 * (e[5] as int + 0x100 * e[6] as int + 0x1_0000 * e[7] as int + 0x100_0000 * e[8] as int)
                 == v + if v < 0 then TWO64 else 0
  {
    if -0x8000 <= v < 0x8000 {
      Word16OfBytes(Unsigned(v, 0x1_0000));
    } else if -0x80_0000 <= v < 0x80_0000 {
      Word24OfBytes(Unsigned(v, 0x100_0000));
    } else if -0x8000_0000 <= v < 0x8000_0000 {
      Word32OfBytes(Unsigned(v, 0x1_0000_0000));
    } else {
      WideBytes(Unsigned(v, TWO64));
    }
  }

  lemma WideBytes(u: nat)
    requires u < TWO64
    ensures B0(u) + 0x100 * B1(u) + 0x1_0000 * B2(u) + 0x100_0000 * B3(u)
            + 0x1_0000_0000 * (B4(u) + 0x100 * B5(u) + 0x1_0000 * B6(u) + 0x100_0000 * B7(u)) == u
  {
    Halves(u);
    Word32OfBytes(u % 0x1_0000_0000);
    Word32OfBytes(u / 0x1_0000_0000);
    hide B0, B1, B2, B3, B4, B5, B6, B7;
  }

  /** The header of a string, plainly: its length in 6 or 12 bits behind a tag, or in four bytes, the low one first. */
  lemma StrHeaderBytes(len: nat)
    requires len <= UINT32_MAX
    ensures var h := StrHeader(len);
            if len < 0x40 then |h| == 1 && h[0] == 0x80 + len
            else if len < 0x1000 then |h| == 2 && 0xE0 <= h[0] < 0xF0 && 0x100 * (h[0] as int - 0xE0) + h[1] == len
            else |h| == 5 && h[0] == 0xF0 && h[1] as int + 0x100 * h[2] as int + 0x1_0000 * h[3] as int + 0x100_0000 * h[4] as int == len
  {
    Word32OfBytes(len);
  }

  lemma EncodedIntIsEncoding(v: int)
    requires INT64_MIN <= v <= INT64_MAX
    ensures IsEncoding(EncodedInt(v))
    ensures IsWide(EncodedInt(v)) <==> !(-2147483648 <= v <= 2147483647)
  {}

  // ----- decoding

  /** lpGetWithSize: an offset and length, or an integer; the entry size is not set for unknown tags. */
  datatype Got = GotStr(start: nat, len: nat, entrySize: nat)
               | GotInt(value: int, entrySizeOpt: Option<nat>)

  function Signed(uval: nat, negstart: nat, negmax: nat): int {
    if uval >= negstart then -(negmax - uval) - 1 else uval
  }

  predicate PayloadReadable(e: Bytes) {
    HeaderReadable(e) && EncodedSize(e) <= |e|
  }

  function GetWithSize(e: Bytes): Got
    requires PayloadReadable(e)
  {
    if Is7BitUint(e[0]) then GotInt(e[0] % 0x80, Some(2))
    else if Is6BitStr(e[0]) then
      var n := e[0] % 0x40; GotStr(1, n, 1 + n + BacklenBytes(n + 1))
    else if Is13BitInt(e[0]) then
      GotInt(Signed(e[0] as int % 0x20 * 0x100 + e[1], 0x1000, 8191), Some(3))
    else if Is16BitInt(e[0]) then GotInt(Signed(Word16(e[1], e[2]), 0x8000, UINT16_MAX), Some(4))
    else if Is24BitInt(e[0]) then
      GotInt(Signed(Word24(e[1], e[2], e[3]), 0x80_0000, 0xFF_FFFF), Some(5))
    else if Is32BitInt(e[0]) then
      GotInt(Signed(Word32(e[1], e[2], e[3], e[4]), 0x8000_0000, UINT32_MAX), Some(6))
    else if Is64BitInt(e[0]) then
      var uval := Word32(e[1], e[2], e[3], e[4]) + Word32(e[5], e[6], e[7], e[8]) * 0x1_0000_0000;
      GotInt(Signed(uval, 0x8000_0000_0000_0000, UINT64_MAX), Some(10))
    else if Is12BitStr(e[0]) then
      var n := e[0] as int % 0x10 * 0x100 + e[1]; GotStr(2, n, 2 + n + BacklenBytes(n + 2))
    else if Is32BitStr(e[0]) then
      var n := Word32(e[1], e[2], e[3], e[4]); GotStr(5, n, 5 + n + BacklenBytes(n + 5))
    else GotInt(12345678900000000 + e[0] as int, None)
  }

  /** The string the command handlers build from lpGetWithSize's answer. */
  function Plain(e: Bytes): Bytes
    requires IsEncoding(e)
  {
    match GetWithSize(e)
    case GotStr(start, len, _) => e[start..start + len]
    case GotInt(v, _) => PrintInt(v)
  }

  lemma NarrowIntRoundTrip(v: int)
    requires -8388608 <= v <= 8388607
    ensures PayloadReadable(EncodedInt(v))
    ensures GetWithSize(EncodedInt(v)) == GotInt(v, Some(|EncodedInt(v)| + 1))
  {
    hide EncodedInt, GetWithSize, PayloadReadable;
    if 0 <= v <= 127 {
      Uint7RoundTrip(v);
    } else if -4096 <= v <= 4095 {
      Int13RoundTrip(v);
    } else if -32768 <= v <= 32767 {
      Int16RoundTrip(v);
    } else {
      Int24RoundTrip(v);
    }
  }

  lemma Uint7RoundTrip(v: int)
    requires 0 <= v <= 127
    ensures PayloadReadable(EncodedInt(v))
    ensures GetWithSize(EncodedInt(v)) == GotInt(v, Some(|EncodedInt(v)| + 1))
  {}

  lemma Int13RoundTrip(v: int)
    requires -4096 <= v <= 4095 && !(0 <= v <= 127)
    ensures PayloadReadable(EncodedInt(v))
    ensures GetWithSize(EncodedInt(v)) == GotInt(v, Some(|EncodedInt(v)| + 1))
  {}

  lemma Int16RoundTrip(v: int)
    requires -32768 <= v <= 32767 && !(-4096 <= v <= 4095)
    ensures PayloadReadable(EncodedInt(v))
    ensures GetWithSize(EncodedInt(v)) == GotInt(v, Some(|EncodedInt(v)| + 1))
  {
    Word16OfBytes(Unsigned(v, 0x1_0000));
    hide Word16;
  }

  lemma Int24RoundTrip(v: int)
    requires -8388608 <= v <= 8388607 && !(-32768 <= v <= 32767)
    ensures PayloadReadable(EncodedInt(v))
    ensures GetWithSize(EncodedInt(v)) == GotInt(v, Some(|EncodedInt(v)| + 1))
  {
    Word24OfBytes(Unsigned(v, 0x100_0000));
  }

  lemma WideIntRoundTrip(v: int)
    requires INT64_MIN <= v <= INT64_MAX && !(-2147483648 <= v <= 2147483647)
    ensures PayloadReadable(EncodedInt(v))
    ensures GetWithSize(EncodedInt(v)) == GotInt(v, Some(|EncodedInt(v)| + 1))
  {
    var u := Unsigned(v, TWO64);
    var e := EncodedInt(v);
    Halves(u);
    Word32OfBytes(u % 0x1_0000_0000);
    Word32OfBytes(u / 0x1_0000_0000);
    assert Word32(e[1], e[2], e[3], e[4]) == u % 0x1_0000_0000;
    assert Word32(e[5], e[6], e[7], e[8]) == u / 0x1_0000_0000;
    assert Signed(u, 0x8000_0000_0000_0000, UINT64_MAX) == v;
  }

  /** Every signed 64-bit integer survives its 7/13/16/24/32/64-bit form. */
  lemma IntRoundTrip(v: int)
    requires INT64_MIN <= v <= INT64_MAX
    ensures PayloadReadable(EncodedInt(v))
    ensures GetWithSize(EncodedInt(v)) == GotInt(v, Some(|EncodedInt(v)| + 1))
  {
    if -8388608 <= v <= 8388607 {
      NarrowIntRoundTrip(v);
    } else if -2147483648 <= v <= 2147483647 {
      Word32OfBytes(Unsigned(v, 0x1_0000_0000));
    } else {
      WideIntRoundTrip(v);
    }
  }

  /** The string `e` encodes is `s`, and `e` is a complete encoding of it. */
  predicate StrForm(e: Bytes, s: Bytes) { IsEncoding(e) && !IsWide(e) && Plain(e) == s }

  lemma Str6RoundTrip(s: Bytes)
    requires |s| < 64
    ensures StrForm(EncodedStr(s), s)
  {
    var e := EncodedStr(s);
    assert e[0] == |s| + 0x80;
    assert e[1..1 + |s|] == s;
  }

  lemma Str12RoundTrip(s: Bytes)
    requires 64 <= |s| < 4096
    ensures StrForm(EncodedStr(s), s)
  {
    var e := EncodedStr(s);
    assert e[0] as int % 0x10 == |s| / 0x100 && e[1] == |s| % 0x100;
    assert e[2..2 + |s|] == s;
  }

  lemma Str32RoundTrip(s: Bytes)
    requires 4096 <= |s| <= UINT32_MAX - 5
    ensures StrForm(EncodedStr(s), s)
  {
    var e := EncodedStr(s);
    Word32OfBytes(|s|);
    assert e[0] == 0xF0 && e[1] == B0(|s|) && e[2] == B1(|s|) && e[3] == B2(|s|) && e[4] == B3(|s|);
    assert e[5..5 + |s|] == s;
  }

  lemma StrRoundTrip(s: Bytes)
    requires |s| <= UINT32_MAX && |EncodedStr(s)| <= UINT32_MAX
    ensures StrForm(EncodedStr(s), s)
  {
    if |s| < 64 { Str6RoundTrip(s); }
    else if |s| < 4096 { Str12RoundTrip(s); }
    else { Str32RoundTrip(s); }
  }

  /** Strings too long for the 32-bit length arithmetic never fit into a listpack anyway. */
  lemma EncodedIsEncoding(s: Bytes)
    requires |s| <= UINT32_MAX && |Encoded(s)| <= UINT32_MAX
    ensures IsEncoding(Encoded(s))
    ensures IsWide(Encoded(s)) <==> Int64Of(s).Some? && !(-2147483648 <= Int64Of(s).value <= 2147483647)
  {
    Int64Range(s);
    match Int64Of(s)
    case Some(v) => EncodedIntIsEncoding(v);
    case None => StrRoundTrip(s);
  }

  /** Every byte string comes back, whether it was stored as an integer or as a string. */
  lemma PlainRoundTrip(s: Bytes)
    requires |s| <= UINT32_MAX && |Encoded(s)| <= UINT32_MAX
    ensures IsEncoding(Encoded(s)) && Plain(Encoded(s)) == s
  {
    EncodedIsEncoding(s);
    Int64Range(s);
    match Int64Of(s)
    case Some(v) =>
      IntRoundTrip(v);
      Int64OfIsCanonical(s, v);
    case None =>
      StrRoundTrip(s);
  }

  /** The entry size lpGetWithSize reports is the step lpSkip takes, for every complete entry. */
  lemma ReportedSizeIsSkip(e: Bytes)
    requires IsEncoding(e)
    ensures match GetWithSize(e)
            case GotStr(start, len, size) => start + len == |e| && size == EntrySize(e)
            case GotInt(_, size) => size == Some(EntrySize(e))
  {}

  /** What lpGetWithSize reads does not depend on what follows the entry. */
  lemma GetIsLocal(e: Bytes, tail: Bytes)
    requires IsEncoding(e)
    ensures PayloadReadable(e + tail) && GetWithSize(e + tail) == GetWithSize(e)
  {}

  /** lpStringToInt64's digit loop, from a first digit 1-9 on; None on a stray byte or uint64 overflow. */
  method ParseDigits(d: Bytes) returns (v: Option<nat>)
    requires |d| > 0 && IsDigit(d[0]) && d[0] != ZERO
    ensures v.Some? ==> AllDigits(d) && v.value == Value(d)
    ensures v.None? && AllDigits(d) ==> Value(d) > INT64_MAX + 1
  {
    var n: nat, plen := d[0] - ZERO, 1;
    assert d[..1] == [d[0]] && Value(d[..1][..0]) == 0;
    while plen < |d| && IsDigit(d[plen])
      invariant 0 < plen <= |d| && AllDigits(d[..plen]) && n == Value(d[..plen])
    {
      assert d[..plen + 1][..plen] == d[..plen];
      if n > UINT64_MAX / 10 {
        Overflow(d, plen, n * 10);
        return None;
      }
      n := n * 10;
      if n > UINT64_MAX - (d[plen] - ZERO) {
        Overflow(d, plen, n + (d[plen] - ZERO));
        return None;
      }
      n := n + (d[plen] - ZERO);
      plen := plen + 1;
    }
    if plen < |d| { return None; }
    assert d[..|d|] == d;
    return Some(n);
  }

  /** lpStringToInt64. */
  method LpStringToInt64(s: Bytes) returns (value: Option<int>)
    ensures value == Int64Of(s)
  {
    if |s| == 0 || |s| >= 21 {
      TooLong(s);
      return None;
    }
    if |s| == 1 && s[0] == ZERO { return Some(0); }
    var negative, plen := false, 0;
    if s[0] == MINUS {
      negative, plen := true, 1;
      if plen == |s| { return None; }
    }
    if !(49 <= s[plen] <= 57) { return None; }
    assert s[0..] == s;
    var v := ParseDigits(s[plen..]);
    if v == None { return None; }
    if negative {
      if v.value > INT64_MAX + 1 { return None; }
      return Some(0 - v.value);
    } else {
      if v.value > INT64_MAX { return None; }
      return Some(v.value);
    }
  }

  lemma TooLong(s: Bytes)
    requires |s| == 0 || |s| >= 21
    ensures Int64Of(s) == None
  {
    if |s| >= 21 {
      var d := if s[0] == MINUS then s[1..] else s;
      if AllDigits(d) && d[0] != ZERO { TwentyDigits(d); }
    }
  }

  lemma TwentyDigits(d: Bytes)
    requires |d| >= 20 && AllDigits(d) && d[0] != ZERO
    ensures Value(d) > INT64_MAX + 1
  {
    LeadingDigitBound(d);
    Pow10Grows(19, |d| - 1);
    assert Pow10(10) == 10_000_000_000;
    assert Pow10(19) == 10_000_000_000_000_000_000;
  }

  lemma {:induction false} Pow10Grows(a: nat, b: nat)
    requires a <= b
    ensures Pow10(a) <= Pow10(b)
    decreases b
  {
    if a < b { Pow10Grows(a, b - 1); }
  }

  lemma Overflow(d: Bytes, k: nat, v: nat)
    requires 0 < k < |d| && AllDigits(d[..k + 1]) && d[0] != ZERO
    requires v > INT64_MAX + 1 && v <= Value(d[..k + 1])
    ensures AllDigits(d) ==> Value(d) > INT64_MAX + 1
  {
    if AllDigits(d) { ValueOfPrefix(d, k + 1); }
  }
}
