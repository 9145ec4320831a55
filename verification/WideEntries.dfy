/**
 * The traversal of listpacks that hold 64-bit integers (src/listpack.cpp): validation knows no size
 * for that encoding, so a walk fails its assert when it arrives at such an entry, and only then.
 */
module WideEntries {
  import opened Bytes
  import opened Words
  import opened ListpackCodec
  import opened ListpackWalk
  import opened Listpack

  /** What a walk that arrives at entry `i` gets: null outside, a failed assert at a 64-bit integer. */
  function Reached(es: seq<Bytes>, i: int): Cursor {
    if i < 0 || i >= |es| then Null else if IsWide(es[i]) then Abort else At(Offset(es, i))
  }

  /** A 64-bit integer stands somewhere from entry `lo` to entry `hi`. */
  ghost predicate WideIn(es: seq<Bytes>, lo: int, hi: int) { exists i :: 0 <= i < |es| && lo <= i <= hi && IsWide(es[i]) }

  lemma AnyHeader(s: Bytes, es: seq<Bytes>)
    requires Holds(s, es)
    ensures HasHeader(s) && TotalBytes(s) == Size(es) && Offset(es, 0) == HEADER_SIZE && CountOk(s, |es|)
    ensures s[Size(es) - 1] == EOF && Offset(es, |es|) == Size(es) - 1
  {
    assert es[..0] == [];
    EndMarker(s, es);
  }

  /** An entry lies before the end marker and does not look like one. */
  lemma EntryStart(s: Bytes, es: seq<Bytes>, i: nat)
    requires Holds(s, es) && i < |es|
    ensures HasHeader(s) && TotalBytes(s) == Size(es)
    ensures HEADER_SIZE <= Offset(es, i) < Size(es) - 1 && s[Offset(es, i)] != EOF
    ensures Readable(s, Offset(es, i)) && Skip(s, Offset(es, i)) == Offset(es, i + 1)
    ensures AssertValidEntry(s, Offset(es, i)) == Reached(es, i)
  {
    hide ValidateNext, Readable, ListpackWalk.Skip, EncodedSize, Body, Spells;
    AnyHeader(s, es);
    EntryBytes(s, es, i);
    EntryView(s, es, i);
    StepOverEntry(s, es, i);
  }

  /** lpFirst. */
  lemma FirstReached(s: Bytes, es: seq<Bytes>)
    requires Holds(s, es)
    ensures HasHeader(s) && First(s) == Reached(es, 0)
  {
    AnyHeader(s, es);
    FirstEntry(s, es);
  }

  /** lpNext at an entry gets to the following one, unless that is a 64-bit integer, whatever else the listpack holds. */
  lemma NextReached(s: Bytes, es: seq<Bytes>, i: nat)
    requires Holds(s, es) && i < |es|
    ensures HasHeader(s) && Readable(s, Offset(es, i)) && Next(s, Offset(es, i)) == Reached(es, i + 1)
  {
    hide Holds, Offset, Size, Readable, AssertValidEntry, ListpackWalk.Skip;
    AnyHeader(s, es);
    EntryStart(s, es, i);
    if i + 1 < |es| { EntryStart(s, es, i + 1); }
  }

  /** lpPrev at an entry, or at the end marker, gets to the entry before, unless that is a 64-bit integer. */
  lemma PrevReached(s: Bytes, es: seq<Bytes>, i: nat)
    requires Holds(s, es) && i <= |es|
    ensures HasHeader(s) && HEADER_SIZE <= Offset(es, i) < |s| && Prev(s, Offset(es, i)) == Reached(es, i - 1)
  {
    hide Holds, Offset, AssertValidEntry, DecodedBacklen;
    AnyHeader(s, es);
    if i > 0 {
      EntryStart(s, es, i - 1);
      EntryEnd(s, es, i - 1);
      NoWrap(|es[i - 1]| + BacklenBytes(|es[i - 1]|));
    }
  }

  /** The back length before the next offset is that of the entry. */
  lemma EntryEnd(s: Bytes, es: seq<Bytes>, i: nat)
    requires Holds(s, es) && i < |es|
    ensures HEADER_SIZE < Offset(es, i + 1) < |s| && |es[i]| <= UINT32_MAX
    ensures DecodedBacklen(s, Offset(es, i + 1) - 1) == |es[i]|
    ensures Offset(es, i + 1) == Offset(es, i) + |es[i]| + BacklenBytes(|es[i]|)
  {
    hide DecodedBacklen, BacklenFrom, IsEncoding, Body, Offset, Size, Spells;
    EntryBytes(s, es, i);
    RawSize(es[i]);
    hide Raw;
    OffsetBound(es, i);
    SpellsSlice(s, Offset(es, i) + |es[i]|, Backlen(|es[i]|));
    hide Backlen;
    BacklenRoundTrip(s, Offset(es, i + 1), |es[i]|);
  }

  lemma OffsetBound(es: seq<Bytes>, i: nat)
    requires i < |es|
    ensures Offset(es, i) >= HEADER_SIZE
  {}

  lemma SpellsSlice(s: Bytes, p: nat, t: Bytes)
    requires Spells(s, p, t)
    ensures p + |t| <= |s| && s[p..p + |t|] == t
  {}

  /** lpLast. */
  lemma LastReached(s: Bytes, es: seq<Bytes>)
    requires Holds(s, es)
    ensures HasHeader(s) && Last(s) == Reached(es, |es| - 1)
  {
    AnyHeader(s, es);
    PrevReached(s, es, |es|);
  }

  lemma ReachedPoints(s: Bytes, es: seq<Bytes>, i: int)
    requires Holds(s, es)
    ensures HasHeader(s) && Points(s, Reached(es, i))
  {
    AnyHeader(s, es);
    if Reached(es, i).At? {
      PrevReached(s, es, i);
      EntryView(s, es, i);
    }
  }

  lemma WideAhead(es: seq<Bytes>, lo: int, hi: int)
    ensures WideIn(es, lo, hi) <==> lo <= hi && (Reached(es, lo) == Abort || WideIn(es, lo + 1, hi))
    ensures WideIn(es, lo, hi) <==> lo <= hi && (Reached(es, hi) == Abort || WideIn(es, lo, hi - 1))
  {
    if WideIn(es, lo, hi) {
      var i :| 0 <= i < |es| && lo <= i <= hi && IsWide(es[i]);
    }
  }

  lemma {:induction false} ForwardReached(s: Bytes, es: seq<Bytes>, i: nat, steps: nat)
    requires Holds(s, es)
    ensures HasHeader(s) && Points(s, Reached(es, i))
    ensures Forward(s, Reached(es, i), steps) == if WideIn(es, i, i + steps) then Abort else Reached(es, i + steps)
    decreases steps
  {
    hide Holds, Next, WideIn, Offset;
    ReachedPoints(s, es, i);
    WideAhead(es, i, i + steps);
    WideAhead(es, i + 1, i);
    if i < |es| && steps > 0 {
      NextReached(s, es, i);
      ForwardReached(s, es, i + 1, steps - 1);
    } else if steps > 0 {
      NoneBeyond(es, i + 1, i + steps);
    }
  }

  lemma {:induction false} BackwardReached(s: Bytes, es: seq<Bytes>, i: int, steps: nat)
    requires Holds(s, es) && i < |es|
    ensures HasHeader(s) && Points(s, Reached(es, i))
    ensures Backward(s, Reached(es, i), steps) == if WideIn(es, i - steps, i) then Abort else Reached(es, i - steps)
    decreases steps
  {
    hide Holds, Prev, WideIn, Offset;
    ReachedPoints(s, es, i);
    WideAhead(es, i - steps, i);
    WideAhead(es, i, i - 1);
    if i >= 0 && steps > 0 {
      PrevReached(s, es, i);
      BackwardReached(s, es, i - 1, steps - 1);
    } else if steps > 0 {
      NoneBeyond(es, i - steps, i - 1);
    }
  }

  lemma NoneBeyond(es: seq<Bytes>, lo: int, hi: int)
    requires hi < 0 || lo >= |es|
    ensures !WideIn(es, lo, hi)
  {}

  /** The entries lpSeek passes on the way to `target`: from the end that it starts from. */
  ghost predicate WideOnTheWay(es: seq<Bytes>, counted: bool, position: int) {
    var target := if position < 0 then |es| + position else position;
    if (if counted then target > |es| / 2 else position < 0) then WideIn(es, target, |es| - 1) else WideIn(es, 0, target)
  }

  /**
   * lpSeek on a listpack that may hold 64-bit integers. A position that a counted header shows to be out of
   * range is answered without a walk; otherwise the assert fails exactly when a 64-bit integer is on the way.
   */
  lemma SeekReached(s: Bytes, es: seq<Bytes>, position: int)
    requires Holds(s, es)
    ensures HasHeader(s)
    ensures var counted := NumElements(s) != NUMELE_UNKNOWN;
            var target := if position < 0 then |es| + position else position;
            Seek(s, position) ==
              if counted && !(0 <= target < |es|) then Null
              else if WideOnTheWay(es, counted, position) then Abort
              else Reached(es, target)
  {
    hide Holds, First, Last, Forward, Backward, WideIn, Reached, Size, TotalBytes, Points;
    AnyHeader(s, es);
    EndsPoint(s);
    FirstReached(s, es);
    LastReached(s, es);
    match RouteTo(NumElements(s), position)
    case Nowhere =>
    case FromFirst(steps) => ForwardReached(s, es, 0, steps);
    case FromLast(steps) => BackwardReached(s, es, |es| - 1, steps);
  }

  lemma {:induction false} WalkedReached(s: Bytes, es: seq<Bytes>, i: nat)
    requires Holds(s, es) && i <= |es|
    ensures HasHeader(s) && Points(s, Reached(es, i))
    ensures Walked(s, Reached(es, i)) == if WideIn(es, i, |es| - 1) then None else Some(|es| - i)
    decreases |es| - i
  {
    hide Holds, Next, WideIn, Offset;
    ReachedPoints(s, es, i);
    WideAhead(es, i, |es| - 1);
    if i < |es| {
      NextReached(s, es, i);
      WalkedReached(s, es, i + 1);
    }
  }

  /** lpLength fails exactly when the header does not say the count and there is a 64-bit integer to walk over. */
  lemma LengthReached(s: Bytes, es: seq<Bytes>)
    requires Holds(s, es)
    ensures HasHeader(s)
    ensures Length(s) == if NumElements(s) == NUMELE_UNKNOWN && !NoWide(es) then None else Some(|es|)
  {
    hide First, Walked, Offset;
    AnyHeader(s, es);
    EndsPoint(s);
    FirstReached(s, es);
    WalkedReached(s, es, 0);
  }
}
