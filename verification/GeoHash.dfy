/**
 * The geohash of src/geohash.cpp: the shift-and-mask ladders that interleave two 32-bit words, on
 * bit vectors, and the cells that rest on them, with real numbers for doubles.
 */
module GeoHash {
  import opened Bytes

  /** A word without bits outside a mask. */
  predicate Within(x: bv64, mask: bv64) { x & mask == x }

  /** A uint32_t kept in a 64-bit word. */
  predicate IsWord32(x: bv64) { x & 0xFFFF_FFFF == x }

  // ----- the ladders

  /** The stages of interleave64 for one of the two words. */
  function Spread(v: bv64): bv64 {
    var x := (v | (v << 16)) & 0x0000_FFFF_0000_FFFF;
    var x := (x | (x << 8)) & 0x00FF_00FF_00FF_00FF;
    var x := (x | (x << 4)) & 0x0F0F_0F0F_0F0F_0F0F;
    var x := (x | (x << 2)) & 0x3333_3333_3333_3333;
    (x | (x << 1)) & 0x5555_5555_5555_5555
  }

  /** The stages of deinterleave64 for one of the two words. */
  function Gather(v: bv64): bv64 {
    var x := (v | (v >> 0)) & 0x5555_5555_5555_5555;
    var x := (x | (x >> 1)) & 0x3333_3333_3333_3333;
    var x := (x | (x >> 2)) & 0x0F0F_0F0F_0F0F_0F0F;
    var x := (x | (x >> 4)) & 0x00FF_00FF_00FF_00FF;
    var x := (x | (x >> 8)) & 0x0000_FFFF_0000_FFFF;
    (x | (x >> 16)) & 0x0000_0000_FFFF_FFFF
  }

  /** interleave64. */
  function Interleave64(xlo: bv64, ylo: bv64): bv64 { Join(Spread(xlo), Spread(ylo)) }

  /** x | (y << 1). */
  function Join(x: bv64, y: bv64): bv64 { x | (y << 1) }

  /** deinterleave64: the even bits in the low half, the odd bits in the high half. */
  function Deinterleave64(v: bv64): bv64 { Gather(v) | (Gather(v >> 1) << 32) }

  /** The assignments of a 64-bit word, and of its high half, to a uint32_t. */
  function Low(v: bv64): bv64 { v & 0xFFFF_FFFF }

  function High(v: bv64): bv64 { (v >> 32) & 0xFFFF_FFFF }

  /** Taking apart undoes interleaving, for all pairs of 32-bit words. */
  lemma DeinterleaveUndoes(x: bv64, y: bv64)
    requires IsWord32(x) && IsWord32(y)
    ensures Low(Deinterleave64(Interleave64(x, y))) == x && High(Deinterleave64(Interleave64(x, y))) == y
  {
    assert Low(Deinterleave64(Interleave64(x, y))) == x;
  }

  /** Interleaving undoes taking apart, for all 64-bit words. */
  lemma InterleaveUndoes(v: bv64)
    ensures Interleave64(Low(Deinterleave64(v)), High(Deinterleave64(v))) == v
  {}

  // ----- bits and numbers

  predicate Odd(x: bv64) { x & 1 == 1 }

  function Half(x: bv64): bv64 { x >> 1 }

  /** A word one bit longer. */
  function Push(x: bv64, b: bool): bv64 { (x << 1) | (if b then 1 else 0) }

  /** Bit `i` of a word. */
  predicate Bit(x: bv64, i: nat) { if i == 0 then Odd(x) else Bit(Half(x), i - 1) }

  /** The unsigned number of the low `n` bits. */
  function Number(x: bv64, n: nat): nat {
    if n == 0 then 0 else 2 * Number(Half(x), n - 1) + if Odd(x) then 1 else 0
  }

  /** The word of a number below 2^n. */
  function WordOf(k: nat, n: nat): bv64 { if n == 0 then 0 else Push(WordOf(k / 2, n - 1), k % 2 == 1) }

  function Pow2(n: nat): (r: nat)
    ensures r > 0
  { if n == 0 then 1 else 2 * Pow2(n - 1) }

  lemma SpreadShifts(x: bv64)
    requires IsWord32(x)
    ensures Half(Half(Spread(x))) == Spread(Half(x))
  {
    assert (Spread(x) >> 1) >> 1 == Spread(x) >> 2;
  }

  lemma SpreadIsEven(x: bv64)
    ensures Within(Spread(x), 0x5555_5555_5555_5555)
  {}

  lemma JoinShifts(a: bv64, b: bv64)
    requires Within(a, 0x5555_5555_5555_5555) && Within(b, 0x5555_5555_5555_5555)
    ensures Half(Half(Join(a, b))) == Join(Half(Half(a)), Half(Half(b)))
  {}

  lemma HalfIsWord(x: bv64)
    requires IsWord32(x)
    ensures IsWord32(Half(x))
  {}

  lemma LowestBit(x: bv64, y: bv64)
    requires IsWord32(x) && IsWord32(y)
    ensures Odd(Interleave64(x, y)) == Odd(x)
  {
    assert Interleave64(x, y) & 1 == x & 1;
  }

  lemma SecondBit(x: bv64, y: bv64)
    requires IsWord32(x) && IsWord32(y)
    ensures Odd(Half(Interleave64(x, y))) == Odd(y)
  {
    assert (Interleave64(x, y) >> 1) & 1 == y & 1;
  }

  /** Interleaving, one bit of each word at a time. */
  lemma OnePair(x: bv64, y: bv64)
    requires IsWord32(x) && IsWord32(y)
    ensures Odd(Interleave64(x, y)) == Odd(x) && Odd(Half(Interleave64(x, y))) == Odd(y)
    ensures Half(Half(Interleave64(x, y))) == Interleave64(Half(x), Half(y))
    ensures IsWord32(Half(x)) && IsWord32(Half(y))
  {
    hide Interleave64, Half, Odd, IsWord32, Spread, Join;
    LowestBit(x, y);
    SecondBit(x, y);
    HalfIsWord(x);
    HalfIsWord(y);
    PairHalves(x, y);
  }

  lemma PairHalves(x: bv64, y: bv64)
    requires IsWord32(x) && IsWord32(y)
    ensures Half(Half(Interleave64(x, y))) == Interleave64(Half(x), Half(y))
  {
    hide Spread, IsWord32, Join, Half, Within;
    SpreadShifts(x);
    SpreadShifts(y);
    SpreadIsEven(x);
    SpreadIsEven(y);
    JoinShifts(Spread(x), Spread(y));
  }

  /** Bit i of the first word lands at 2i and bit i of the second at 2i + 1. */
  lemma {:induction false} BitsLand(x: bv64, y: bv64, i: nat)
    requires IsWord32(x) && IsWord32(y)
    ensures Bit(Interleave64(x, y), 2 * i) == Bit(x, i) && Bit(Interleave64(x, y), 2 * i + 1) == Bit(y, i)
    decreases i
  {
    hide Interleave64, IsWord32, Odd, Half;
    OnePair(x, y);
    var v := Interleave64(x, y);
    if i > 0 {
      BitsLand(Half(x), Half(y), i - 1);
      assert Bit(v, 2 * i) == Bit(Half(v), 2 * i - 1) == Bit(Half(Half(v)), 2 * (i - 1));
      assert Bit(v, 2 * i + 1) == Bit(Half(v), 2 * i) == Bit(Half(Half(v)), 2 * (i - 1) + 1);
    } else {
      assert Bit(v, 1) == Bit(Half(v), 0);
    }
  }

  /** The bits of a word are the binary digits of its number. */
  lemma {:induction false} BitOfNumber(x: bv64, n: nat, i: nat)
    requires i < n
    ensures Bit(x, i) <==> Number(x, n) / Pow2(i) % 2 == 1
    decreases i
  {
    hide Half, Odd;
    if i > 0 {
      BitOfNumber(Half(x), n - 1, i - 1);
      HalvedTwice(Number(Half(x), n - 1), if Odd(x) then 1 else 0, Pow2(i - 1));
    }
  }

  lemma HalvedTwice(m: nat, b: nat, p: nat)
    requires b < 2 && p > 0
    ensures (2 * m + b) / (2 * p) == m / p
  {
    var q, r := m / p, m % p;
    assert 2 * m + b == (2 * p) * q + (2 * r + b) && 2 * r + b < 2 * p;
    Quotients(2 * m + b, 2 * p, q, 2 * r + b);
  }

  lemma Quotients(a: nat, d: nat, q: nat, r: nat)
    requires d > 0 && r < d && a == d * q + r
    ensures a / d == q
  {
    var k := a / d;
    assert a == d * k + a % d;
    if k < q { AtLeastOnce(d, q - k); }
    if q < k { AtLeastOnce(d, k - q); }
  }

  lemma AtLeastOnce(d: int, n: int)
    requires d > 0 && n > 0
    ensures d * n >= d
  {}

  // ----- a uint32_t from a number

  /** The n low ones. */
  function Ones(n: nat): bv64 { if n == 0 then 0 else Push(Ones(n - 1), true) }

  lemma {:induction false} OnesNest(n: nat, m: nat)
    requires n <= m
    ensures Within(Ones(n), Ones(m))
  {
    hide Push, Within;
    if n == 0 {
      NoOnes(Ones(m));
    } else {
      OnesNest(n - 1, m - 1);
      PushNests(Ones(n - 1), Ones(m - 1));
    }
  }

  lemma NoOnes(x: bv64)
    ensures Within(0, x)
  {}

  lemma PushNests(a: bv64, b: bv64)
    requires Within(a, b)
    ensures Within(Push(a, true), Push(b, true))
  {}

  lemma FourOnes(n: nat, before: bv64, after: bv64)
    requires Ones(n) == before && after == Push(Push(Push(Push(before, true), true), true), true)
    ensures Ones(n + 4) == after
  {
    hide Push;
    assert Ones(n + 4) == Push(Ones(n + 3), true) && Ones(n + 3) == Push(Ones(n + 2), true);
    assert Ones(n + 2) == Push(Ones(n + 1), true);
  }

  lemma ThirtyOneOnes()
    ensures Ones(31) == 0x7FFF_FFFF
  {
    FourOnes(0, 0, 0xF);
    FourOnes(4, 0xF, 0xFF);
    FourOnes(8, 0xFF, 0xFFF);
    FourOnes(12, 0xFFF, 0xFFFF);
    FourOnes(16, 0xFFFF, 0xF_FFFF);
    FourOnes(20, 0xF_FFFF, 0xFF_FFFF);
    FourOnes(24, 0xFF_FFFF, 0xFFF_FFFF);
    assert Ones(29) == Push(Ones(28), true) && Ones(30) == Push(Ones(29), true) && Ones(31) == Push(Ones(30), true);
  }

  lemma PushedIsWord(x: bv64, b: bool)
    requires Within(x, 0x7FFF_FFFF)
    ensures IsWord32(Push(x, b))
  {}

  lemma PushedHalf(x: bv64, b: bool)
    requires Within(x, 0x7FFF_FFFF)
    ensures Half(Push(x, b)) == x
  {}

  lemma PushedOdd(x: bv64, b: bool)
    ensures Odd(Push(x, b)) == b
  {}

  lemma AndPush(x: bv64, b: bool, ones: bv64)
    ensures Push(x, b) & Push(ones, true) == Push(x & ones, b)
  {}

  lemma PushedFits(x: bv64, b: bool, ones: bv64)
    requires Within(x, ones)
    ensures Within(Push(x, b), Push(ones, true))
  {
    hide Push;
    AndPush(x, b, ones);
  }

  lemma Narrower(x: bv64, a: bv64, b: bv64)
    requires Within(x, a) && Within(a, b)
    ensures Within(x, b)
  {}

  /** Converting a number below 2^32 to a word keeps the number. */
  lemma {:induction false} WordKeepsNumber(k: nat, n: nat)
    requires k < Pow2(n) && n <= 32
    ensures Number(WordOf(k, n), n) == k && Within(WordOf(k, n), Ones(n)) && IsWord32(WordOf(k, n))
  {
    if n == 0 {
      NoOnes(Ones(0));
      ZeroIsWord();
    } else {
      hide Push, Half, Odd, IsWord32, Ones, Within;
      var x, b := WordOf(k / 2, n - 1), k % 2 == 1;
      WordKeepsNumber(k / 2, n - 1);
      OnesNest(n - 1, 31);
      ThirtyOneOnes();
      Narrower(x, Ones(n - 1), 0x7FFF_FFFF);
      PushedIsWord(x, b);
      PushedHalf(x, b);
      PushedOdd(x, b);
      PushedFits(x, b, Ones(n - 1));
      OneMoreOne(n);
    }
  }

  lemma ZeroIsWord()
    ensures IsWord32(0)
  {}

  lemma OneMoreOne(n: nat)
    requires n > 0
    ensures Ones(n) == Push(Ones(n - 1), true)
  {}

  // ----- order

  /** Interleaving n bits of each word makes a number that grows strictly with each of them. */
  lemma {:induction false} InterleaveIsMonotone(x: bv64, u: bv64, y: bv64, n: nat)
    requires IsWord32(x) && IsWord32(u) && IsWord32(y)
    ensures Number(x, n) < Number(u, n) <==> Number(Interleave64(x, y), 2 * n) < Number(Interleave64(u, y), 2 * n)
    ensures Number(x, n) < Number(u, n) <==> Number(Interleave64(y, x), 2 * n) < Number(Interleave64(y, u), 2 * n)
    ensures Number(x, n) == Number(u, n) <==> Number(Interleave64(x, y), 2 * n) == Number(Interleave64(u, y), 2 * n)
    ensures Number(x, n) == Number(u, n) <==> Number(Interleave64(y, x), 2 * n) == Number(Interleave64(y, u), 2 * n)
    decreases n
  {
    hide Interleave64, IsWord32, Half, Odd;
    if n > 0 {
      NumberOfPair(x, y, n);
      NumberOfPair(u, y, n);
      NumberOfPair(y, x, n);
      NumberOfPair(y, u, n);
      OnePair(x, u);
      OnePair(y, y);
      InterleaveIsMonotone(Half(x), Half(u), Half(y), n - 1);
    }
  }

  /** The number of interleaved words, one bit of each at a time. */
  lemma NumberOfPair(x: bv64, y: bv64, n: nat)
    requires IsWord32(x) && IsWord32(y) && n > 0
    ensures Number(Interleave64(x, y), 2 * n) ==
            4 * Number(Interleave64(Half(x), Half(y)), 2 * (n - 1)) + (if Odd(y) then 2 else 0) + (if Odd(x) then 1 else 0)
  {
    hide Interleave64, IsWord32, Half, Odd;
    OnePair(x, y);
    var v := Interleave64(x, y);
    assert Number(v, 2 * n) == 2 * Number(Half(v), 2 * n - 1) + if Odd(v) then 1 else 0;
    assert Number(Half(v), 2 * n - 1) == 2 * Number(Half(Half(v)), 2 * (n - 1)) + if Odd(Half(v)) then 1 else 0;
  }

  // ----- cells

  datatype Range = Range(min: real, max: real) {
    function Width(): real { max - min }
  }

  /** GeoHashBits. */
  datatype Bits = Bits(bits: bv64, step: nat)

  /** GeoHashArea. */
  datatype Area = Area(hash: Bits, longitude: Range, latitude: Range)

  /** A distance in a range of width `w` on a scale of `p`, and back. */
  function Scaled(a: real, w: real, p: real): real
    requires w > 0.0
  { a / w * p }

  function Along(k: real, w: real, p: real): real
    requires p > 0.0
  { k / p * w }

  /** Where a coordinate lies in its range, in cells from its start. */
  function Offset(v: real, range: Range, step: nat): real
    requires range.min < range.max
  { Scaled(v - range.min, range.Width(), Pow2(step) as real) }

  /** The cell with a number, as geoHashDecode computes it. */
  function Cell(k: nat, range: Range, step: nat): Range {
    Range(range.min + Along(k as real, range.Width(), Pow2(step) as real),
          range.min + Along(((k + 1) % 0x1_0000_0000) as real, range.Width(), Pow2(step) as real))
  }

  class Hasher {
    const latRange: Range
    const longRange: Range

    constructor (latRange: Range, longRange: Range)
      ensures this.latRange == latRange && this.longRange == longRange
    {
      this.latRange, this.longRange := latRange, longRange;
    }

    predicate Proper() { latRange.min < latRange.max && longRange.min < longRange.max }

    predicate Covers(longitude: real, latitude: real) {
      longRange.min <= longitude <= longRange.max && latRange.min <= latitude <= latRange.max
    }

    /** geoHashEncode. The scale 1 << step is an int, so the step is at most 30. */
    method Encode(longitude: real, latitude: real, step: nat) returns (ok: bool, hash: Bits)
      requires Proper() && step <= 30
      ensures ok <==> Covers(longitude, latitude)
      ensures ok ==> hash == Encoded(longitude, latitude, step)
    {
      hide Interleave64, WordOf, Pow2;
      hash := Bits(0, step);
      if longitude > longRange.max || longitude < longRange.min || latitude > latRange.max || latitude < latRange.min {
        return false, hash;
      }
      var latOffset := (latitude - latRange.min) / (latRange.max - latRange.min);
      var longOffset := (longitude - longRange.min) / (longRange.max - longRange.min);
      var scale := Pow2(step);
      latOffset := latOffset * scale as real;
      longOffset := longOffset * scale as real;
      assert latOffset == Offset(latitude, latRange, step) && longOffset == Offset(longitude, longRange, step);
      hide Offset;
      OffsetInScale(latitude, latRange, step);
      OffsetInScale(longitude, longRange, step);
      hash := Bits(Interleave64(WordOf(latOffset.Floor, 32), WordOf(longOffset.Floor, 32)), step);
      ok := true;
    }

    function Encoded(longitude: real, latitude: real, step: nat): Bits
      requires Proper() && Covers(longitude, latitude) && step <= 30
    {
      OffsetInScale(latitude, latRange, step);
      OffsetInScale(longitude, longRange, step);
      Bits(Interleave64(WordOf(Offset(latitude, latRange, step).Floor, 32), WordOf(Offset(longitude, longRange, step).Floor, 32)), step)
    }

    /** geoHashDecode. */
    method Decode(hash: Bits) returns (area: Area)
      ensures area == Decoded(hash)
    {
      hide Deinterleave64, Low, High, Number;
      var d := Deinterleave64(hash.bits);
      var lat, long := Number(Low(d), 32), Number(High(d), 32);
      area := Area(hash, Cell(long, longRange, hash.step), Cell(lat, latRange, hash.step));
    }

    function Decoded(hash: Bits): Area {
      var d := Deinterleave64(hash.bits);
      Area(hash, Cell(Number(High(d), 32), longRange, hash.step), Cell(Number(Low(d), 32), latRange, hash.step))
    }
  }

  lemma OffsetInScale(v: real, range: Range, step: nat)
    requires range.min <= v <= range.max && range.min < range.max
    ensures 0.0 <= Offset(v, range, step) <= Pow2(step) as real
    ensures 0 <= Offset(v, range, step).Floor <= Pow2(step)
  {
    ScaledIsSmall(v - range.min, range.Width(), Pow2(step) as real);
    hide Scaled, Pow2;
  }

  lemma ScaledIsSmall(a: real, w: real, p: real)
    requires 0.0 <= a <= w && w > 0.0 && p > 0.0
    ensures 0.0 <= Scaled(a, w, p) <= p
  {
    Quotient(a, w);
    var t := a / w;
    assert 0.0 <= t * p <= 1.0 * p;
  }

  lemma Quotient(a: real, w: real)
    requires 0.0 <= a <= w && w > 0.0
    ensures 0.0 <= a / w <= 1.0
  {}

  lemma {:induction false} Pow2Grows(n: nat, m: nat)
    requires n <= m
    ensures Pow2(n) <= Pow2(m)
  {
    if n < m { Pow2Grows(n, m - 1); }
  }

  ghost predicate InCell(v: real, cell: Range, width: real) {
    cell.min <= v < cell.max && cell.Width() == width && -(width / 2.0) <= (cell.min + cell.max) / 2.0 - v <= width / 2.0
  }

  /** The cell of a coordinate's offset contains it, has the width of the range over 2^step, and a midpoint within half of that. */
  lemma CellContains(v: real, range: Range, step: nat, k: nat)
    requires range.min <= v <= range.max && range.min < range.max && step <= 30 && k == Offset(v, range, step).Floor
    ensures InCell(v, Cell(k, range, step), range.Width() / Pow2(step) as real)
  {
    hide Scaled, Along, Pow2, Cell;
    CellAround(v, range, step, k);
    Positive(range.Width(), Pow2(step) as real);
    Midpoint(Cell(k, range, step).min, Cell(k, range, step).max, v);
  }

  lemma CellAround(v: real, range: Range, step: nat, k: nat)
    requires range.min <= v <= range.max && range.min < range.max && step <= 30 && k == Offset(v, range, step).Floor
    ensures var cell := Cell(k, range, step); cell.min <= v < cell.max && cell.Width() == range.Width() / Pow2(step) as real
  {
    hide Scaled, Along, Pow2, Cell;
    var p, w := Pow2(step) as real, range.Width();
    OffsetInScale(v, range, step);
    Pow2Grows(step, 30);
    Pow30();
    CellIs(k, range, step);
    FloorIs(Offset(v, range, step), k);
    Scale(v - range.min, w, p, k as real);
    Spacing(w, p, k as real);
  }

  lemma FloorIs(o: real, k: nat)
    requires k == o.Floor
    ensures k as real <= o < k as real + 1.0
  {}

  lemma CellIs(k: nat, range: Range, step: nat)
    requires k < 0xFFFF_FFFF
    ensures Cell(k, range, step) == Range(range.min + Along(k as real, range.Width(), Pow2(step) as real),
                                          range.min + Along(k as real + 1.0, range.Width(), Pow2(step) as real))
  {
    hide Along, Pow2;
    assert (k + 1) % 0x1_0000_0000 == k + 1 && (k + 1) as real == k as real + 1.0;
  }

  lemma Midpoint(lo: real, hi: real, v: real)
    requires lo <= v < hi
    ensures -((hi - lo) / 2.0) <= (lo + hi) / 2.0 - v <= (hi - lo) / 2.0
  {}

  lemma Positive(w: real, p: real)
    requires w > 0.0 && p > 0.0
    ensures w / p > 0.0
  {}

  lemma Pow30()
    ensures Pow2(30) == 0x4000_0000
  {
    assert Pow2(10) == 1024 && Pow2(20) == 1024 * 1024;
  }

  lemma Scale(a: real, w: real, p: real, k: real)
    requires w > 0.0 && p > 0.0 && k <= Scaled(a, w, p) < k + 1.0
    ensures Along(k, w, p) <= a < Along(k + 1.0, w, p)
  {
    Divide(k, a / w, p);
    DivideStrictly(a / w, k + 1.0, p);
    Times(k / p, a / w, w);
    TimesStrictly(a / w, (k + 1.0) / p, w);
  }

  lemma Divide(k: real, t: real, p: real)
    requires p > 0.0 && k <= t * p
    ensures k / p <= t
  {}

  lemma DivideStrictly(t: real, k: real, p: real)
    requires p > 0.0 && t * p < k
    ensures t < k / p
  {}

  lemma Times(s: real, t: real, w: real)
    requires w > 0.0 && s <= t
    ensures s * w <= t * w
  {}

  lemma TimesStrictly(s: real, t: real, w: real)
    requires w > 0.0 && s < t
    ensures s * w < t * w
  {}

  lemma Spacing(w: real, p: real, k: real)
    requires p > 0.0
    ensures Along(k + 1.0, w, p) - Along(k, w, p) == w / p
  {
    assert (k + 1.0) / p == k / p + 1.0 / p;
    assert (k / p + 1.0 / p) * w == k / p * w + 1.0 / p * w;
  }

  /** The words of an encoded point are the numbers of its cells. */
  lemma EncodedWords(a: nat, b: nat)
    requires a < 0x1_0000_0000 && b < 0x1_0000_0000
    ensures var d := Deinterleave64(Interleave64(WordOf(a, 32), WordOf(b, 32))); Number(Low(d), 32) == a && Number(High(d), 32) == b
  {
    hide Interleave64, Deinterleave64, Low, High, Number, WordOf, IsWord32, Within, Pow2;
    Pow32();
    WordKeepsNumber(a, 32);
    WordKeepsNumber(b, 32);
    DeinterleaveUndoes(WordOf(a, 32), WordOf(b, 32));
  }

  lemma WordBits(lat: nat, long: nat, i: nat)
    requires lat <= Pow2(30) && long <= Pow2(30) && i < 32
    ensures var v := Interleave64(WordOf(lat, 32), WordOf(long, 32));
            (Bit(v, 2 * i) <==> lat / Pow2(i) % 2 == 1) && (Bit(v, 2 * i + 1) <==> long / Pow2(i) % 2 == 1)
  {
    Pow30();
    Pow32();
    hide Interleave64, Number, WordOf, Pow2, IsWord32, Within, Bit;
    WordKeepsNumber(lat, 32);
    WordKeepsNumber(long, 32);
    BitsLand(WordOf(lat, 32), WordOf(long, 32), i);
    BitOfNumber(WordOf(lat, 32), 32, i);
    BitOfNumber(WordOf(long, 32), 32, i);
  }

  /** The cell in which a coordinate lies: its distance from the start of the range, in units of a 2^step-th of the range. */
  function CellNumber(v: real, range: Range, step: nat): int
    requires range.min < range.max
  { ((v - range.min) / (range.max - range.min) * Pow2(step) as real).Floor }

  lemma CellNumberIs(v: real, range: Range, step: nat)
    requires range.min <= v <= range.max && range.min < range.max && step <= 30
    ensures 0 <= CellNumber(v, range, step) <= Pow2(30) && Offset(v, range, step).Floor == CellNumber(v, range, step)
  {
    hide Pow2, Offset, CellNumber;
    OffsetInScale(v, range, step);
    Pow2Grows(step, 30);
    OffsetFloor(v, range, step);
  }

  lemma OffsetFloor(v: real, range: Range, step: nat)
    requires range.min < range.max
    ensures Offset(v, range, step).Floor == CellNumber(v, range, step)
  {
    hide Pow2;
    assert Offset(v, range, step) == (v - range.min) / (range.max - range.min) * Pow2(step) as real;
  }

  /** Bit 2i of a hash is bit i of the number of the latitude's cell, and bit 2i + 1 that of the longitude's. */
  lemma EncodedBits(h: Hasher, longitude: real, latitude: real, step: nat, i: nat)
    requires h.Proper() && h.Covers(longitude, latitude) && step <= 30 && i < 32
    ensures var hash := h.Encoded(longitude, latitude, step);
            && hash.step == step
            && (Bit(hash.bits, 2 * i) <==> CellNumber(latitude, h.latRange, step) / Pow2(i) % 2 == 1)
            && (Bit(hash.bits, 2 * i + 1) <==> CellNumber(longitude, h.longRange, step) / Pow2(i) % 2 == 1)
  {
    hide Interleave64, WordOf, Pow2, Bit, Offset, CellNumber;
    CellNumberIs(latitude, h.latRange, step);
    CellNumberIs(longitude, h.longRange, step);
    WordBits(CellNumber(latitude, h.latRange, step), CellNumber(longitude, h.longRange, step), i);
  }

  lemma Pow32()
    ensures Pow2(32) == 0x1_0000_0000
  {
    Pow30();
    assert Pow2(31) == 2 * Pow2(30);
  }

  /** Decoding an encoded point gives a cell that contains it, of width range / 2^step on each axis. */
  lemma DecodingFindsThePoint(h: Hasher, longitude: real, latitude: real, step: nat)
    requires h.Proper() && h.Covers(longitude, latitude) && step <= 30
    ensures var area := h.Decoded(h.Encoded(longitude, latitude, step));
            && InCell(longitude, area.longitude, h.longRange.Width() / Pow2(step) as real)
            && InCell(latitude, area.latitude, h.latRange.Width() / Pow2(step) as real)
  {
    OffsetInScale(latitude, h.latRange, step);
    OffsetInScale(longitude, h.longRange, step);
    Pow2Grows(step, 30);
    Pow30();
    hide Interleave64, Deinterleave64, Low, High, Number, WordOf, Pow2, Scaled, Along, Cell, Offset;
    var lat, long := Offset(latitude, h.latRange, step).Floor, Offset(longitude, h.longRange, step).Floor;
    EncodedWords(lat, long);
    CellContains(latitude, h.latRange, step, lat);
    CellContains(longitude, h.longRange, step, long);
  }
}
