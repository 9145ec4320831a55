/**
 * Reading a listpack: validation and traversal (src/listpack.cpp). Everything here
 * is about a byte string `s` and positions in it; nothing assumes that the
 * bytes were written by this program.
 */
module ListpackWalk {
  import opened Bytes
  import opened Words
  import opened ListpackCodec

  /** LP_HDR_NUMELE_UNKNOWN. */
  const NUMELE_UNKNOWN := UINT16_MAX

  function TotalBytes(s: Bytes): nat
    requires |s| >= HEADER_SIZE
  { Word32(s[0], s[1], s[2], s[3]) }

  function NumElements(s: Bytes): nat
    requires |s| >= HEADER_SIZE
  { Word16(s[4], s[5]) }

  /** The header's byte count lies inside the buffer and leaves room for the end marker. */
  predicate HasHeader(s: Bytes) { |s| > HEADER_SIZE && HEADER_SIZE < TotalBytes(s) <= |s| }

  /** IS_OUT_OF_RANGE. */
  predicate OutOfRange(n: nat, p: int) { p < HEADER_SIZE || p > n - 1 }

  /** lpValidateNext: false, true with a null pointer, or true with the next position. */
  datatype Step = Invalid | AtEof | To(next: nat)

  function ValidateNext(s: Bytes, n: nat, p: int): Step
    requires HEADER_SIZE < n <= |s|
  {
    if OutOfRange(n, p) then Invalid
    else if s[p] == EOF then AtEof
    else if HeaderBytes(s[p]) == 0 || OutOfRange(n, p + HeaderBytes(s[p])) then Invalid
    else
      var size := EncodedSize(s[p..]);
      var width := BacklenBytes(size);
      var next := p + size + width;
      if OutOfRange(n, next) then Invalid
      else if (DecodedBacklen(s, next - 1) + width) % TWO64 != size + width then Invalid
      else To(next)
  }

  lemma DecodedBacklenRange(s: Bytes, p: int)
    requires 4 <= p < |s|
    ensures DecodedBacklen(s, p) == UINT64_MAX || DecodedBacklen(s, p) < 0x8_0000_0000
  {
    BacklenFromRange(s, p, 0);
  }

  lemma {:induction false} BacklenFromRange(s: Bytes, p: int, k: nat)
    requires k <= 4 && 4 - k <= p < |s|
    ensures BacklenFrom(s, p, k).Some? ==>
              BacklenFrom(s, p, k).value < [0x8_0000_0000, 0x1000_0000, 0x20_0000, 0x4000, 0x80][k]
    decreases 4 - k
  {
    if k < 4 { BacklenFromRange(s, p - 1, k + 1); }
  }

  /** What one successful validation step guarantees. */
  lemma ValidStep(s: Bytes, n: nat, p: nat)
    requires HEADER_SIZE < n <= |s| && ValidateNext(s, n, p).To?
    ensures var next := ValidateNext(s, n, p).next;
            && HEADER_SIZE <= p < next < n && s[p] != EOF && HeaderReadable(s[p..])
            && next == p + EntrySize(s[p..])
            && DecodedBacklen(s, next - 1) == EncodedSize(s[p..]) <= UINT32_MAX
  {
    var next := ValidateNext(s, n, p).next;
    DecodedBacklenRange(s, next - 1);
    NoWrap(DecodedBacklen(s, next - 1) + BacklenBytes(EncodedSize(s[p..])));
  }

  lemma NoWrap(x: nat)
    ensures x < TWO64 ==> x % TWO64 == x
    ensures TWO64 <= x < 2 * TWO64 ==> x % TWO64 == x - TWO64
  {}

  // ----- tilings

  /**
   * `offs` lists the entry positions of the first `n` bytes and then the position of the
   * end marker: the entries lie side by side from the header to the final 0xFF.
   */
  ghost predicate Tiles(s: Bytes, n: nat, offs: seq<nat>)
    requires HEADER_SIZE < n <= |s|
  {
    && IsWalk(s, n, offs)
    && offs[|offs| - 1] == n - 1 && s[n - 1] == EOF
  }

  ghost predicate IsWalk(s: Bytes, n: nat, offs: seq<nat>)
    requires HEADER_SIZE < n <= |s|
  {
    && |offs| > 0 && offs[0] == HEADER_SIZE
    && forall i {:trigger ValidateNext(s, n, offs[i])} :: 0 <= i < |offs| - 1 ==> ValidateNext(s, n, offs[i]) == To(offs[i + 1])
  }

  /** "Header equals the length, or header is 65535". */
  predicate CountOk(s: Bytes, count: nat)
    requires |s| >= HEADER_SIZE
  { NumElements(s) == NUMELE_UNKNOWN || NumElements(s) == count }

  /** `s` is a listpack whose entries and end marker are at `offs`. */
  ghost predicate Tiled(s: Bytes, offs: seq<nat>) {
    HasHeader(s) && Tiles(s, TotalBytes(s), offs) && CountOk(s, |offs| - 1)
  }

  lemma {:induction false} WalkIncreases(s: Bytes, n: nat, offs: seq<nat>, i: nat, j: nat)
    requires HEADER_SIZE < n <= |s| && IsWalk(s, n, offs) && i <= j < |offs|
    ensures HEADER_SIZE <= offs[i] && offs[i] + (j - i) <= offs[j]
    decreases j
  {
    if i < j {
      WalkIncreases(s, n, offs, i, j - 1);
      ValidStep(s, n, offs[j - 1]);
    } else if j > 0 {
      WalkIncreases(s, n, offs, j - 1, j - 1);
      ValidStep(s, n, offs[j - 1]);
    }
  }

  lemma StepAt(s: Bytes, n: nat, offs: seq<nat>, i: nat)
    requires HEADER_SIZE < n <= |s| && IsWalk(s, n, offs) && i < |offs|
    ensures i < |offs| - 1 ==> ValidateNext(s, n, offs[i]) == To(offs[i + 1])
  {}

  lemma {:induction false} WalkIsPrefix(s: Bytes, n: nat, walk: seq<nat>, offs: seq<nat>)
    requires HEADER_SIZE < n <= |s| && IsWalk(s, n, walk) && Tiles(s, n, offs)
    ensures |walk| <= |offs| && walk == offs[..|walk|]
  {
    if |walk| > 1 {
      var shorter := walk[..|walk| - 1];
      WalkIsPrefix(s, n, shorter, offs);
      var k := |shorter| - 1;
      assert ValidateNext(s, n, walk[k]) == To(walk[k + 1]);
      assert offs[k] == shorter[k];
      ValidStep(s, n, walk[k]);
      if |shorter| < |offs| { assert ValidateNext(s, n, offs[k]) == To(offs[k + 1]); }
      assert walk == shorter + [walk[k + 1]];
    }
  }

  // ----- validation

  ghost predicate Intact(s: Bytes, size: nat, deep: bool)
    requires size <= |s|
  {
    && size > HEADER_SIZE && TotalBytes(s) == size && s[size - 1] == EOF
    && (deep ==> exists offs :: Tiled(s, offs))
  }

  /**
   * lpValidateIntegrity: total on every byte buffer, reads nothing outside it, and with
   * `deep` accepts exactly the buffers whose entries tile the body up to the final 0xFF in as
   * many steps as a known count header says.
   */
  method LpValidateIntegrity(lp: array?<Byte>, size: nat, deep: bool) returns (ok: bool)
    requires lp != null ==> size <= lp.Length
    ensures ok <==>
              && lp != null && size > HEADER_SIZE && TotalBytes(lp[..]) == size && lp[size - 1] == 0xFF
              && (deep ==> exists offs :: Tiled(lp[..], offs))
  {
    if lp == null { return false; }
    if size < HEADER_SIZE + 1 { return false; }
    var totalbytes := TotalBytes(lp[..]);
    if totalbytes != size { return false; }
    if lp[size - 1] != EOF { return false; }
    if !deep { return true; }
    var count, numelement := 0, NumElements(lp[..]);
    var p := HEADER_SIZE;
    ghost var walk: seq<nat> := [p];
    while lp[p] != EOF
      invariant HEADER_SIZE <= p < size
      invariant IsWalk(lp[..], size, walk) && |walk| == count + 1 && walk[count] == p
      decreases size - p
    {
      var step := ValidateNext(lp[..], totalbytes, p);
      if !step.To? {
        WalkStops(lp[..], size, walk);
        return false;
      }
      ValidStep(lp[..], size, p);
      p, count, walk := step.next, count + 1, walk + [step.next];
    }
    WalkStops(lp[..], size, walk);
    if size - 1 != p { return false; }
    if numelement != NUMELE_UNKNOWN && numelement != count { return false; }
    assert Tiled(lp[..], walk);
    return true;
  }

  /** A walk that cannot be continued is the whole tiling, if there is one. */
  lemma WalkStops(s: Bytes, n: nat, walk: seq<nat>)
    requires HEADER_SIZE < n <= |s| && IsWalk(s, n, walk)
    requires !ValidateNext(s, n, walk[|walk| - 1]).To?
    ensures forall offs :: Tiles(s, n, offs) ==> offs == walk
  {
    forall offs | Tiles(s, n, offs) ensures offs == walk {
      WalkIsPrefix(s, n, walk, offs);
      StepAt(s, n, offs, |walk| - 1);
      assert offs[..|offs|] == offs;
    }
  }

  // ----- traversal

  /** A pointer result: null, a position, or the failed assert of lpAssertValidEntry. */
  datatype Cursor = Null | At(p: nat) | Abort

  function AssertValidEntry(s: Bytes, p: int): Cursor
    requires HasHeader(s)
  { if ValidateNext(s, TotalBytes(s), p) == Invalid then Abort else At(p) }

  predicate Readable(s: Bytes, p: nat) { p < |s| && HeaderReadable(s[p..]) }

  function Skip(s: Bytes, p: nat): nat
    requires Readable(s, p)
  { p + EntrySize(s[p..]) }

  function Next(s: Bytes, p: nat): Cursor
    requires HasHeader(s) && Readable(s, p)
  {
    var q := Skip(s, p);
    if OutOfRange(TotalBytes(s), q) then Null
    else if s[q] == EOF then Null
    else AssertValidEntry(s, q)
  }

  function Prev(s: Bytes, p: nat): Cursor
    requires HasHeader(s) && HEADER_SIZE <= p < |s|
  {
    if p == HEADER_SIZE then Null
    else
      var prevlen := DecodedBacklen(s, p - 1);
      AssertValidEntry(s, p - (prevlen + BacklenBytes(prevlen)) % TWO64)
  }

  function First(s: Bytes): Cursor
    requires HasHeader(s)
  { if s[HEADER_SIZE] == EOF then Null else AssertValidEntry(s, HEADER_SIZE) }

  function Last(s: Bytes): Cursor
    requires HasHeader(s)
  { Prev(s, TotalBytes(s) - 1) }

  /** The position the walk of `offs` has at index `i`, null outside. */
  function EntryAt(offs: seq<nat>, i: int): Cursor {
    if 0 <= i < |offs| - 1 then At(offs[i]) else Null
  }

  lemma EntriesAreValid(s: Bytes, offs: seq<nat>, i: nat)
    requires Tiled(s, offs) && i < |offs|
    ensures AssertValidEntry(s, offs[i]) == At(offs[i])
    ensures s[offs[i]] == EOF <==> i == |offs| - 1
    ensures HEADER_SIZE <= offs[i] <= TotalBytes(s) - 1
    ensures Readable(s, offs[i])
  {
    WalkIncreases(s, TotalBytes(s), offs, i, |offs| - 1);
    if i < |offs| - 1 {
      assert ValidateNext(s, TotalBytes(s), offs[i]) == To(offs[i + 1]);
      ValidStep(s, TotalBytes(s), offs[i]);
    }
  }

  lemma NextAdvances(s: Bytes, offs: seq<nat>, i: nat)
    requires Tiled(s, offs) && i < |offs| - 1
    ensures Readable(s, offs[i]) && Next(s, offs[i]) == EntryAt(offs, i + 1)
  {
    assert ValidateNext(s, TotalBytes(s), offs[i]) == To(offs[i + 1]);
    ValidStep(s, TotalBytes(s), offs[i]);
    EntriesAreValid(s, offs, i + 1);
    hide ValidateNext, DecodedBacklen, EncodedSize;
  }

  lemma PrevOfStep(s: Bytes, p: nat)
    requires HasHeader(s) && ValidateNext(s, TotalBytes(s), p).To?
    ensures var next := ValidateNext(s, TotalBytes(s), p).next;
            HEADER_SIZE < next < |s| && Prev(s, next) == AssertValidEntry(s, p)
  {
    hide DecodedBacklen, EncodedSize, AssertValidEntry;
    ValidStep(s, TotalBytes(s), p);
    hide ValidateNext;
    PrevBy(s, ValidateNext(s, TotalBytes(s), p).next, EncodedSize(s[p..]));
  }

  lemma PrevBy(s: Bytes, p: nat, prevlen: nat)
    requires HasHeader(s) && HEADER_SIZE < p < |s| && DecodedBacklen(s, p - 1) == prevlen <= UINT32_MAX
    ensures Prev(s, p) == AssertValidEntry(s, p - (prevlen + BacklenBytes(prevlen)))
  {
    hide DecodedBacklen, AssertValidEntry;
    NoWrap(prevlen + BacklenBytes(prevlen));
  }

  lemma PrevRetreats(s: Bytes, offs: seq<nat>, i: nat)
    requires Tiled(s, offs) && i < |offs|
    ensures HEADER_SIZE <= offs[i] < |s| && Prev(s, offs[i]) == EntryAt(offs, i - 1)
  {
    EntriesAreValid(s, offs, i);
    if i > 0 {
      WalkIncreases(s, TotalBytes(s), offs, i - 1, i);
      assert ValidateNext(s, TotalBytes(s), offs[i - 1]) == To(offs[i]);
      PrevOfStep(s, offs[i - 1]);
      EntriesAreValid(s, offs, i - 1);
    }
  }

  lemma FirstAndLast(s: Bytes, offs: seq<nat>)
    requires Tiled(s, offs)
    ensures First(s) == EntryAt(offs, 0)
    ensures Last(s) == EntryAt(offs, |offs| - 2)
  {
    hide ValidateNext, Prev, CountOk;
    EntriesAreValid(s, offs, 0);
    PrevRetreats(s, offs, |offs| - 1);
  }

  predicate IsPrevOf(s: Bytes, c: Cursor, of: Cursor)
    requires HasHeader(s)
  { !of.Abort? && (of.At? ==> HEADER_SIZE <= of.p < |s| && Prev(s, of.p) == c) }

  predicate IsNextOf(s: Bytes, c: Cursor, of: Cursor)
    requires HasHeader(s)
  { !of.Abort? && (of.At? ==> Readable(s, of.p) && Next(s, of.p) == c) }

  /**
   * On every buffer that deep validation accepts, the forward and the backward walk are
   * inverse to each other and no traversal assert fails.
   */
  lemma PrevUndoesNext(s: Bytes, offs: seq<nat>, i: nat)
    requires Tiled(s, offs) && i < |offs| - 1
    ensures HEADER_SIZE <= offs[i] < |s| && Readable(s, offs[i])
    ensures IsPrevOf(s, At(offs[i]), Next(s, offs[i])) && IsNextOf(s, At(offs[i]), Prev(s, offs[i]))
  {
    hide Next, Prev, Readable, IsWalk, CountOk;
    NextAdvances(s, offs, i);
    PrevRetreats(s, offs, i);
    if i + 1 < |offs| - 1 { PrevRetreats(s, offs, i + 1); }
    if i > 0 { NextAdvances(s, offs, i - 1); }
  }

  /** Only the last entry has no successor, and only the first has no predecessor. */
  lemma NullAtTheEnds(s: Bytes, offs: seq<nat>, i: nat)
    requires Tiled(s, offs) && i < |offs| - 1
    ensures HEADER_SIZE <= offs[i] < |s| && Readable(s, offs[i])
    ensures Next(s, offs[i]) == Null <==> At(offs[i]) == Last(s)
    ensures Prev(s, offs[i]) == Null <==> At(offs[i]) == First(s)
  {
    hide Next, Prev, First, Last, Readable, CountOk, ValidateNext;
    NextAdvances(s, offs, i);
    PrevRetreats(s, offs, i);
    FirstAndLast(s, offs);
    WalkIncreases(s, TotalBytes(s), offs, 0, i);
    WalkIncreases(s, TotalBytes(s), offs, i, |offs| - 2);
  }

  /** A pointer that lpNext and lpPrev can be given: what the walks return. */
  predicate Points(s: Bytes, c: Cursor) { c.At? ==> HEADER_SIZE <= c.p < |s| && Readable(s, c.p) }

  lemma ValidPoints(s: Bytes, p: int)
    requires HasHeader(s)
    ensures Points(s, AssertValidEntry(s, p))
  {
    if ValidateNext(s, TotalBytes(s), p).To? { ValidStep(s, TotalBytes(s), p); }
  }

  /** The element `steps` times lpNext away, unless the walk ends or fails before. */
  function Forward(s: Bytes, c: Cursor, steps: nat): Cursor
    requires HasHeader(s) && Points(s, c)
    decreases steps
  {
    if steps == 0 || !c.At? then c
    else
      ValidPoints(s, Skip(s, c.p));
      Forward(s, Next(s, c.p), steps - 1)
  }

  /** The element `steps` times lpPrev away, unless the walk ends or fails before. */
  function Backward(s: Bytes, c: Cursor, steps: nat): Cursor
    requires HasHeader(s) && Points(s, c)
    decreases steps
  {
    if steps == 0 || !c.At? then c
    else
      PrevPoints(s, c.p);
      Backward(s, Prev(s, c.p), steps - 1)
  }

  lemma PrevPoints(s: Bytes, p: nat)
    requires HasHeader(s) && HEADER_SIZE <= p < |s|
    ensures Points(s, Prev(s, p))
  {
    if p > HEADER_SIZE {
      var prevlen := DecodedBacklen(s, p - 1);
      ValidPoints(s, p - (prevlen + BacklenBytes(prevlen)) % TWO64);
    }
  }

  lemma EndsPoint(s: Bytes)
    requires HasHeader(s)
    ensures Points(s, First(s)) && Points(s, Last(s))
  {
    ValidPoints(s, HEADER_SIZE);
    PrevPoints(s, TotalBytes(s) - 1);
  }

  /** How lpSeek goes to a position: not at all, or so many steps from one of the ends. */
  datatype Route = Nowhere | FromFirst(steps: nat) | FromLast(steps: nat)

  /** A known count turns negative positions round, checks the range and chooses the nearer end. */
  function RouteTo(numele: nat, position: int): Route {
    if numele == NUMELE_UNKNOWN then
      if position < 0 then FromLast(-position - 1) else FromFirst(position)
    else
      var index := if position < 0 then numele + position else position;
      if index < 0 || index >= numele then Nowhere
      else if index > numele / 2 then FromLast(numele - index - 1)
      else FromFirst(index)
  }

  function Seek(s: Bytes, position: int): Cursor
    requires HasHeader(s)
  {
    EndsPoint(s);
    match RouteTo(NumElements(s), position)
    case Nowhere => Null
    case FromFirst(steps) => Forward(s, First(s), steps)
    case FromLast(steps) => Backward(s, Last(s), steps)
  }

  /** lpSeek's left-to-right loop. */
  method SeekForward(s: Bytes, position: nat) returns (ele: Cursor)
    requires HasHeader(s)
    ensures Points(s, First(s)) && ele == Forward(s, First(s), position)
  {
    hide First, Next, AssertValidEntry;
    EndsPoint(s);
    var index: int := position;
    ele := First(s);
    while index > 0 && ele.At?
      invariant 0 <= index <= position && Points(s, ele)
      invariant Forward(s, ele, index) == Forward(s, First(s), position)
    {
      NextPoints(s, ele.p);
      ele := Next(s, ele.p);
      index := index - 1;
    }
  }

  lemma NextPoints(s: Bytes, p: nat)
    requires HasHeader(s) && Readable(s, p)
    ensures Points(s, Next(s, p))
  {
    ValidPoints(s, Skip(s, p));
  }

  /** lpSeek's right-to-left loop. */
  method SeekBackward(s: Bytes, position: int) returns (ele: Cursor)
    requires HasHeader(s) && position < 0
    ensures Points(s, Last(s)) && ele == Backward(s, Last(s), -position - 1)
  {
    hide Last, Prev, AssertValidEntry;
    EndsPoint(s);
    var index: int := position;
    ele := Last(s);
    while index < -1 && ele.At?
      invariant position <= index <= -1 && Points(s, ele)
      invariant Backward(s, ele, -index - 1) == Backward(s, Last(s), -position - 1)
      decreases -index
    {
      PrevPoints(s, ele.p);
      ele := Prev(s, ele.p);
      index := index + 1;
    }
  }

  /** lpSeek, on any buffer with a sound header. */
  method LpSeek(lp: array<Byte>, position: int) returns (ele: Cursor)
    requires HasHeader(lp[..])
    ensures ele == Seek(lp[..], position)
  {
    hide First, Last, Forward, Backward;
    var index, forwards := position, true;
    var numele := NumElements(lp[..]);
    if numele != NUMELE_UNKNOWN {
      if index < 0 { index := numele + index; }
      if index < 0 { return Null; }
      if index >= numele { return Null; }
      if index > numele / 2 { forwards, index := false, index - numele; }
    } else if index < 0 {
      forwards := false;
    }
    if forwards {
      ele := SeekForward(lp[..], index);
    } else {
      ele := SeekBackward(lp[..], index);
    }
  }

  lemma {:induction false} ForwardTiled(s: Bytes, offs: seq<nat>, i: nat, steps: nat)
    requires Tiled(s, offs)
    ensures Points(s, EntryAt(offs, i)) && Forward(s, EntryAt(offs, i), steps) == EntryAt(offs, i + steps)
    decreases steps
  {
    hide Next, Tiled;
    if i < |offs| - 1 {
      EntriesAreValid(s, offs, i);
      if steps > 0 {
        NextAdvances(s, offs, i);
        ForwardTiled(s, offs, i + 1, steps - 1);
      }
    }
  }

  lemma {:induction false} BackwardTiled(s: Bytes, offs: seq<nat>, i: int, steps: nat)
    requires Tiled(s, offs) && i < |offs| - 1
    ensures Points(s, EntryAt(offs, i)) && Backward(s, EntryAt(offs, i), steps) == EntryAt(offs, i - steps)
    decreases steps
  {
    hide Prev, Tiled;
    if i >= 0 {
      EntriesAreValid(s, offs, i);
      if steps > 0 {
        PrevRetreats(s, offs, i);
        BackwardTiled(s, offs, i - 1, steps - 1);
      }
    }
  }

  /**
   * On a tiled buffer, whichever end it starts from and whether or not the count is known, lpSeek finds the
   * i-th entry for i >= 0, the |i|-th from the end for i < 0, and null exactly when out of range.
   */
  lemma SeekTiled(s: Bytes, offs: seq<nat>, position: int)
    requires Tiled(s, offs)
    ensures Seek(s, position) == EntryAt(offs, if position < 0 then position + (|offs| - 1) else position)
  {
    hide First, Last, Forward, Backward;
    var n := |offs| - 1;
    FirstAndLast(s, offs);
    match RouteTo(NumElements(s), position)
    case Nowhere =>
    case FromFirst(steps) => ForwardTiled(s, offs, 0, steps);
    case FromLast(steps) => BackwardTiled(s, offs, n - 1, steps);
  }

  /** How many entries the walk from `c` meets; none if an assert fails on the way. */
  function Walked(s: Bytes, c: Cursor): Option<nat>
    requires HasHeader(s) && Points(s, c)
    decreases if c.At? then |s| - c.p else 0
  {
    match c
    case Null => Some(0)
    case Abort => None
    case At(p) =>
      NextPoints(s, p);
      match Walked(s, Next(s, p))
      case None => None
      case Some(n) => Some(n + 1)
  }

  /** lpLength's loop. */
  method CountEntries(s: Bytes) returns (count: Option<nat>)
    requires HasHeader(s)
    ensures Points(s, First(s)) && count == Walked(s, First(s))
  {
    hide First, Next;
    EndsPoint(s);
    var n := 0;
    var p := First(s);
    while p.At?
      invariant Points(s, p)
      invariant match Walked(s, p)
                case None => Walked(s, First(s)) == None
                case Some(rest) => Walked(s, First(s)) == Some(n + rest)
      decreases if p.At? then |s| - p.p else -1
    {
      NextPoints(s, p.p);
      NextIsFurther(s, p.p);
      p := Next(s, p.p);
      n := n + 1;
    }
    return if p == Abort then None else Some(n);
  }

  lemma NextIsFurther(s: Bytes, p: nat)
    requires HasHeader(s) && Readable(s, p)
    ensures Next(s, p).At? ==> p < Next(s, p).p
  {}

  /** What lpLength says: the header's count if there is one. */
  function Length(s: Bytes): Option<nat>
    requires HasHeader(s)
  {
    EndsPoint(s);
    if NumElements(s) != NUMELE_UNKNOWN then Some(NumElements(s)) else Walked(s, First(s))
  }

  lemma {:induction false} WalkedTiled(s: Bytes, offs: seq<nat>, i: nat)
    requires Tiled(s, offs) && i < |offs|
    ensures Points(s, EntryAt(offs, i)) && Walked(s, EntryAt(offs, i)) == Some(|offs| - 1 - i)
    decreases |offs| - i
  {
    hide Next, Tiled;
    if i < |offs| - 1 {
      EntriesAreValid(s, offs, i);
      NextAdvances(s, offs, i);
      WalkedTiled(s, offs, i + 1);
    }
  }

  /** On a tiled buffer lpLength is the number of entries. */
  lemma LengthTiled(s: Bytes, offs: seq<nat>)
    requires Tiled(s, offs)
    ensures Length(s) == Some(|offs| - 1)
  {
    hide First, Walked;
    FirstAndLast(s, offs);
    WalkedTiled(s, offs, 0);
  }

  /** lpLength: counts the entries when the header does not say, and then records the count if it fits. */
  method LpLength(lp: array<Byte>) returns (count: Option<nat>)
    requires HasHeader(lp[..])
    modifies lp
    ensures count == Length(old(lp[..]))
    ensures TotalBytes(lp[..]) == old(TotalBytes(lp[..])) && lp[..][HEADER_SIZE..] == old(lp[..][HEADER_SIZE..])
    ensures NumElements(lp[..]) == if count.Some? && count.value < NUMELE_UNKNOWN then count.value else NUMELE_UNKNOWN
  {
    hide First, Walked;
    var numElements := NumElements(lp[..]);
    if numElements != NUMELE_UNKNOWN { return Some(numElements); }
    count := CountEntries(lp[..]);
    if count.Some? && count.value < NUMELE_UNKNOWN { SetNumElements(lp, count.value); }
  }

  /** lpSetNumElements. */
  method SetNumElements(lp: array<Byte>, nums: nat)
    requires lp.Length >= HEADER_SIZE
    modifies lp
    ensures TotalBytes(lp[..]) == old(TotalBytes(lp[..])) && lp[..][HEADER_SIZE..] == old(lp[..][HEADER_SIZE..])
    ensures nums <= UINT16_MAX ==> NumElements(lp[..]) == nums && lp[4] as int + 0x100 * lp[5] as int == nums
  {
    lp[4] := B0(nums);
    lp[5] := B1(nums);
    if nums <= UINT16_MAX { Word16OfBytes(nums); }
  }

  /** lpSetTotalBytes. */
  method SetTotalBytes(lp: array<Byte>, capacity: nat)
    requires lp.Length >= HEADER_SIZE
    modifies lp
    ensures NumElements(lp[..]) == old(NumElements(lp[..])) && lp[..][HEADER_SIZE..] == old(lp[..][HEADER_SIZE..])
    ensures capacity <= UINT32_MAX ==> TotalBytes(lp[..]) == capacity
    ensures capacity <= UINT32_MAX ==>
              lp[0] as int + 0x100 * lp[1] as int + 0x1_0000 * lp[2] as int + 0x100_0000 * lp[3] as int == capacity
  {
    lp[0], lp[1], lp[2], lp[3] := B0(capacity), B1(capacity), B2(capacity), B3(capacity);
    if capacity <= UINT32_MAX { Word32OfBytes(capacity); }
  }
}
