/**
 * A listpack as the list commands use it: strings go in, the same strings come
 * out, whether or not they were stored as integers (src/db/PUSH, LPOP, BLPOP, LRANGE).
 */
module ListpackStrings {
  import opened Bytes
  import opened Decimal
  import opened ListpackCodec
  import opened ListpackWalk
  import opened Listpack
  import opened WideEntries
  import opened ListModel
  import Sequences

  /** A string whose encoding fits uint32 lengths. */
  predicate Fits(w: Bytes) { |w| <= UINT32_MAX && |Encoded(w)| <= UINT32_MAX }

  /** And it is not an integer that needs the 64-bit form, on which the traversal asserts fail. */
  predicate Storable(w: Bytes) { Fits(w) && !IsWide(Encoded(w)) }

  /** Exactly the canonical decimals outside the 32-bit range are not storable. */
  lemma StorableIff(w: Bytes)
    requires |w| <= UINT32_MAX - 5
    ensures Storable(w) <==> forall v :: INT64_MIN <= v <= INT64_MAX && w == PrintInt(v) ==> -2147483648 <= v <= 2147483647
  {
    EncodedLength(w);
    EncodedIsEncoding(w);
    forall v { Int64OfIsCanonical(w, v); }
    if Int64Of(w).Some? {
      Int64OfIsCanonical(w, Int64Of(w).value);
      assert INT64_MIN <= Int64Of(w).value <= INT64_MAX && w == PrintInt(Int64Of(w).value);
    }
  }

  lemma EncodedLength(w: Bytes)
    requires |w| <= UINT32_MAX - 5
    ensures |Encoded(w)| <= UINT32_MAX
  {}

  function Enc(w: Bytes): Bytes { if |w| <= UINT32_MAX then Encoded(w) else [] }

  function EncodeAll(ws: seq<Bytes>): (es: seq<Bytes>)
    ensures |es| == |ws|
  { seq(|ws|, i requires 0 <= i < |ws| => Enc(ws[i])) }

  /** The bytes of a listpack with the strings `ws`. */
  ghost predicate Contains(s: Bytes, ws: seq<Bytes>) { Holds(s, EncodeAll(ws)) && forall i :: 0 <= i < |ws| ==> Fits(ws[i]) }

  predicate AllStorable(ws: seq<Bytes>) { forall i :: 0 <= i < |ws| ==> Storable(ws[i]) }

  /** A list whose first string, if there is one, lpFirst can get to. */
  predicate FirstStorable(ws: seq<Bytes>) { ws == [] || Storable(ws[0]) }

  /** The byte count of a listpack with the strings `ws`. */
  function ListSize(ws: seq<Bytes>): nat { Size(EncodeAll(ws)) }

  /** The string a handler builds from lpGetWithSize at `p`: the bytes, or std::to_string of the integer. */
  function StringAt(s: Bytes, p: nat): Bytes
    requires p < |s| && PayloadReadable(s[p..])
  {
    match GetWithSize(s[p..])
    case GotStr(start, len, _) => if start + len <= |s| - p then s[p + start..p + start + len] else []
    case GotInt(v, _) => PrintInt(v)
  }

  lemma SpellsSlice(s: Bytes, p: nat, e: Bytes, start: nat, len: nat)
    requires Spells(s, p, e) && start + len <= |e|
    ensures p + start + len <= |s| && s[p + start..p + start + len] == e[start..start + len]
  {}

  lemma StringOfEntry(s: Bytes, p: nat, e: Bytes)
    requires IsEncoding(e) && Spells(s, p, e) && PayloadReadable(s[p..]) && GetWithSize(s[p..]) == GetWithSize(e)
    ensures StringAt(s, p) == Plain(e)
  {
    ReportedSizeIsSkip(e);
    hide GetWithSize, IsEncoding, Spells;
    match GetWithSize(e)
    case GotStr(start, len, _) => SpellsSlice(s, p, e, start, len);
    case GotInt(_, _) =>
  }

  /** Reading entry `i` gives back the i-th string byte for byte. */
  lemma StringComesBack(s: Bytes, ws: seq<Bytes>, i: nat)
    requires Contains(s, ws) && i < |ws|
    ensures Offset(EncodeAll(ws), i) < |s| && PayloadReadable(s[Offset(EncodeAll(ws), i)..])
    ensures StringAt(s, Offset(EncodeAll(ws), i)) == ws[i]
  {
    hide Encoded, GetWithSize;
    var es := EncodeAll(ws);
    EntryView(s, es, i);
    EntryBytes(s, es, i);
    assert es[i] == Encoded(ws[i]);
    PlainRoundTrip(ws[i]);
    StringOfEntry(s, Offset(es, i), es[i]);
  }

  lemma EncodeMore(ws: seq<Bytes>, w: Bytes)
    requires |w| <= UINT32_MAX
    ensures EncodeAll(ws + [w]) == EncodeAll(ws) + [Encoded(w)]
    ensures EncodeAll([w] + ws) == [Encoded(w)] + EncodeAll(ws)
  {
    hide Encoded;
  }

  lemma SizeAppend(ws: seq<Bytes>, w: Bytes)
    requires |w| <= UINT32_MAX
    ensures EncodeAll(ws + [w]) == EncodeAll(ws) + [Encoded(w)]
    ensures EncodeAll([w] + ws) == [Encoded(w)] + EncodeAll(ws)
    ensures ListSize(ws + [w]) == ListSize([w] + ws) == ListSize(ws) + |Raw(Encoded(w))|
  {
    hide Encoded, EncodeAll, Body, Raw;
    EncodeMore(ws, w);
    BodyConcat(EncodeAll(ws), [Encoded(w)]);
    BodyConcat([Encoded(w)], EncodeAll(ws));
    BodyOfOne(Encoded(w));
  }

  /** Pushing more only makes the listpack longer. */
  lemma {:induction false} PushAllGrows(ws: seq<Bytes>, values: seq<Bytes>, prepend: bool)
    requires forall i :: 0 <= i < |values| ==> |values[i]| <= UINT32_MAX
    ensures ListSize(ws) <= ListSize(PushAll(ws, values, prepend))
    decreases |values|
  {
    hide Encoded, ListSize;
    if values != [] {
      SizeAppend(ws, values[0]);
      PushAllGrows(Extended(ws, values[0], prepend), values[1..], prepend);
    }
  }

  /** lpInsert does not return null exactly when the result stays below 2^32 bytes. */
  lemma FitsOnInsert(ws: seq<Bytes>, w: Bytes, i: nat)
    requires Fits(w) && (i == 0 || i == |ws|)
    ensures NewSize(EncodeAll(ws), Str(w), Before, i) == ListSize(ws + [w])
  {
    SizeAppend(ws, w);
    NewSizeIs(EncodeAll(ws), Str(w), Before, i);
  }

  lemma ExtendedPacks(ws: seq<Bytes>, w: Bytes, prepend: bool)
    requires Fits(w)
    ensures EncodeAll(Extended(ws, w, prepend)) == Extended(EncodeAll(ws), Encoded(w), prepend)
    ensures ListSize(Extended(ws, w, prepend)) == ListSize(ws + [w])
    ensures forall i :: 0 <= i < |ws| + 1 ==>
              Extended(ws, w, prepend)[i] == w || Extended(ws, w, prepend)[i] in ws
  {
    SizeAppend(ws, w);
  }

  /**
   * append_to_existing_list. The byte-count limit is the one below which lpInsert does not return null;
   * the code dereferences its result unchecked. Prepending looks at the first entry, which must not be a
   * 64-bit integer; appending works whatever the list holds.
   */
  method AppendToExistingList(lp: array<Byte>, value: Bytes, prepend: bool, ghost ws: seq<Bytes>)
    returns (r: array<Byte>, len: nat)
    requires Contains(lp[..], ws) && Fits(value) && ListSize(Extended(ws, value, prepend)) <= UINT32_MAX
    requires prepend ==> FirstStorable(ws)
    modifies lp
    ensures (r == lp || fresh(r)) && Contains(r[..], Extended(ws, value, prepend))
    ensures r.Length >= HEADER_SIZE
    ensures len == NumElements(r[..]) == if old(NumElements(lp[..])) == NUMELE_UNKNOWN then NUMELE_UNKNOWN else |ws| + 1
  {
    hide Encoded, Holds, Fits, ListSize;
    ghost var es := EncodeAll(ws);
    ContainsHolds(lp[..], ws);
    FitsIsShort(value);
    ExtendedPacks(ws, value, prepend);
    var res;
    if prepend {
      FirstIsNarrow(lp[..], ws);
      FitsOnInsert(ws, value, 0);
      res := LpPrepend(lp, value, es);
    } else {
      FitsOnInsert(ws, value, |ws|);
      res := LpAppend(lp, value, es);
    }
    r := res;
    ExtendedContains(r[..], ws, value, prepend);
    ContainsHolds(r[..], Extended(ws, value, prepend));
    len := NumElements(r[..]);
  }

  lemma ContainsHolds(s: Bytes, ws: seq<Bytes>)
    requires Contains(s, ws)
    ensures Holds(s, EncodeAll(ws)) && |s| > HEADER_SIZE && (NumElements(s) == NUMELE_UNKNOWN || NumElements(s) == |ws|)
  {}

  lemma FitsIsShort(w: Bytes)
    requires Fits(w)
    ensures |w| <= UINT32_MAX
  {}

  lemma ExtendedContains(s: Bytes, ws: seq<Bytes>, w: Bytes, prepend: bool)
    requires Fits(w) && (forall i :: 0 <= i < |ws| ==> Fits(ws[i])) && Holds(s, Extended(EncodeAll(ws), Encoded(w), prepend))
    ensures Contains(s, Extended(ws, w, prepend))
  {
    hide Encoded, Holds, Fits;
    ExtendedPacks(ws, w, prepend);
  }

  /** A listpack with the strings `ws` whose header says how many there are exactly if `counted`. */
  ghost predicate Shows(s: Bytes, ws: seq<Bytes>, counted: bool) {
    Contains(s, ws) && |s| >= HEADER_SIZE && (counted <==> NumElements(s) != NUMELE_UNKNOWN)
  }

  lemma ShowsParts(s: Bytes, ws: seq<Bytes>, counted: bool)
    requires Shows(s, ws, counted)
    ensures Contains(s, ws) && |s| >= HEADER_SIZE
    ensures NumElements(s) == (if counted then |ws| else NUMELE_UNKNOWN) && (counted ==> |ws| < NUMELE_UNKNOWN)
  {
    hide Fits;
    ContainsHolds(s, ws);
  }

  lemma ShowsExtended(s: Bytes, ws: seq<Bytes>, w: Bytes, prepend: bool, counted: bool)
    requires Contains(s, Extended(ws, w, prepend)) && |s| >= HEADER_SIZE
    requires NumElements(s) == if counted then |ws| + 1 else NUMELE_UNKNOWN
    requires counted ==> |ws| < NUMELE_UNKNOWN
    ensures Shows(s, Extended(ws, w, prepend), counted && |ws| + 1 < NUMELE_UNKNOWN)
  {
    hide Contains;
  }

  lemma FirstIsNarrow(s: Bytes, ws: seq<Bytes>)
    requires Contains(s, ws) && FirstStorable(ws)
    ensures HasHeader(s) && First(s) == if ws == [] then Null else At(Offset(EncodeAll(ws), 0))
  {
    FirstReached(s, EncodeAll(ws));
  }

  /** create_new_list; LIST_PACK_INITIAL_CAPACITY is 20. */
  method CreateNewList(value: Bytes, prepend: bool) returns (r: array<Byte>, len: nat)
    requires Fits(value) && ListSize([value]) <= UINT32_MAX
    ensures fresh(r) && Contains(r[..], [value]) && r.Length >= HEADER_SIZE && len == NumElements(r[..]) == 1
  {
    hide Encoded, Fits, Holds, ListSize;
    var lp := LpNew(20);
    assert EncodeAll([]) == [];
    assert [] + [value] == [value] && [value] + [] == [value];
    r, len := AppendToExistingList(lp, value, prepend, []);
    len := 1;
  }

  /**
   * One round of the loop of handle_lpop, and the whole of handle_blpop's immediate pop: only the first
   * entry must not be a 64-bit integer.
   */
  method PopFirst(lp: array<Byte>, ghost ws: seq<Bytes>) returns (value: Option<Bytes>, r: array<Byte>)
    requires Contains(lp[..], ws) && FirstStorable(ws)
    modifies lp
    ensures r == lp || fresh(r)
    ensures if ws == [] then value == None && Contains(r[..], ws) else value == Some(ws[0]) && Contains(r[..], ws[1..])
    ensures r.Length >= HEADER_SIZE
    ensures NumElements(r[..]) == NUMELE_UNKNOWN <==> old(NumElements(lp[..])) == NUMELE_UNKNOWN
  {
    hide Contains, Encoded, Holds, Storable, EncodeAll, PayloadReadable, StringAt;
    ghost var es := EncodeAll(ws);
    ContainsHolds(lp[..], ws);
    FirstIsNarrow(lp[..], ws);
    var p := First(lp[..]);
    if p == Null { return None, lp; }
    StringComesBack(lp[..], ws, 0);
    value := Some(StringAt(lp[..], p.p));
    ghost var before := lp[..];
    var newp;
    r, newp := LpDelete(lp, p.p, es, 0);
    TailContains(before, r[..], ws);
  }

  lemma TailContains(s: Bytes, t: Bytes, ws: seq<Bytes>)
    requires Contains(s, ws) && ws != [] && Holds(t, EncodeAll(ws)[..0] + EncodeAll(ws)[1..])
    ensures Contains(t, ws[1..]) && |t| >= HEADER_SIZE
  {
    hide Encoded, Holds, Fits;
    assert EncodeAll(ws)[..0] + EncodeAll(ws)[1..] == EncodeAll(ws[1..]);
    ContainsHolds(t, ws[1..]);
  }

  /** lpSeek gets to an element, once lpLength has seen to the header, without meeting a 64-bit integer. */
  ghost predicate Sought(ws: seq<Bytes>, p: nat) { !WideOnTheWay(EncodeAll(ws), |ws| < NUMELE_UNKNOWN, p) }

  /**
   * An LRANGE that fails no assert: the length can be found out, and no 64-bit integer is on the way to the
   * elements that are fetched.
   */
  ghost predicate Fetchable(ws: seq<Bytes>, counted: bool, start: int, stop: int) {
    && (counted || NoWide(EncodeAll(ws)))
    && forall p: nat :: Sequences.First(start, |ws|) <= p <= Sequences.Last(stop, |ws|) ==> Sought(ws, p)
  }

  /** Without 64-bit integers every LRANGE can be answered. */
  lemma StorableIsFetchable(ws: seq<Bytes>, counted: bool, start: int, stop: int)
    requires AllStorable(ws)
    ensures Fetchable(ws, counted, start, stop)
  {
    hide Encoded, WideOnTheWay;
    var es := EncodeAll(ws);
    assert forall i :: 0 <= i < |ws| ==> es[i] == Encoded(ws[i]);
    assert NoWide(es);
    forall p: nat ensures Sought(ws, p) { NoneOnTheWay(es, |ws| < NUMELE_UNKNOWN, p); }
  }

  /** handle_lrange: every element is fetched with lpSeek; lpLength may have recorded the length in the header. */
  method RangeOf(lp: array<Byte>, start: int, stop: int, ghost ws: seq<Bytes>, ghost counted: bool) returns (result: seq<Bytes>)
    requires Shows(lp[..], ws, counted) && Fetchable(ws, counted, start, stop)
    modifies lp
    ensures result == Sequences.Slice(ws, start, stop)
    ensures Shows(lp[..], ws, |ws| < NUMELE_UNKNOWN)
  {
    hide Shows, Sought, EncodeAll, NoWide;
    var length := LengthOf(lp, ws, counted);
    var lo, hi := start, stop;
    if lo < 0 { lo := length + lo; }
    if hi < 0 { hi := length + hi; }
    if lo < 0 { lo := 0; }
    if hi < 0 { return []; }
    if lo >= length { return []; }
    if hi >= length { hi := length - 1; }
    result := Collect(lp, lo, hi, ws);
  }

  /** lpLength on a list. */
  method LengthOf(lp: array<Byte>, ghost ws: seq<Bytes>, ghost counted: bool) returns (length: nat)
    requires Shows(lp[..], ws, counted) && (counted || NoWide(EncodeAll(ws)))
    modifies lp
    ensures Shows(lp[..], ws, |ws| < NUMELE_UNKNOWN) && length == |ws|
  {
    hide Holds, Fits, TotalBytes, Length, Body, Contains, NoWide;
    ghost var es, before := EncodeAll(ws), lp[..];
    ContainsHolds(before, ws);
    LengthReached(before, es);
    var n := LpLength(lp);
    length := n.value;
    HeaderRecounted(before, lp[..], ws);
  }

  /** A header that says the right count is as good as any. */
  lemma HeaderRecounted(s: Bytes, t: Bytes, ws: seq<Bytes>)
    requires Contains(s, ws) && |s| == |t| >= HEADER_SIZE && s[HEADER_SIZE..] == t[HEADER_SIZE..] && TotalBytes(s) == TotalBytes(t)
    requires NumElements(t) == if |ws| < NUMELE_UNKNOWN then |ws| else NUMELE_UNKNOWN
    ensures Contains(t, ws)
  {
    hide Fits, TotalBytes, Body, AllEncodings, Spells;
    SpellsBeyondHeader(s, t, Body(EncodeAll(ws)) + [EOF]);
  }

  /** The fetching loop of handle_lrange. */
  method Collect(lp: array<Byte>, lo: nat, hi: nat, ghost ws: seq<Bytes>) returns (result: seq<Bytes>)
    requires Shows(lp[..], ws, |ws| < NUMELE_UNKNOWN) && lo < |ws| && hi < |ws|
    requires forall p: nat :: lo <= p <= hi ==> Sought(ws, p)
    ensures result == if lo <= hi then ws[lo..hi + 1] else []
  {
    hide Contains, EncodeAll, StringAt, PayloadReadable, Offset, Seek, HasHeader, Sought;
    result := [];
    var index: nat := lo;
    while index <= hi
      invariant lo <= index && (index == lo || index <= hi + 1)
      invariant result == ws[lo..index]
    {
      SoughtAt(lp[..], ws, index);
      var p := LpSeek(lp, index);
      StringComesBack(lp[..], ws, index);
      if p == Null { break; }
      result := result + [StringAt(lp[..], p.p)];
      index := index + 1;
    }
  }

  /** lpSeek gets to a string with no 64-bit integer on the way. */
  lemma SoughtAt(s: Bytes, ws: seq<Bytes>, i: nat)
    requires Contains(s, ws) && i < |ws| && Sought(ws, i)
    requires |s| >= HEADER_SIZE && (|ws| < NUMELE_UNKNOWN <==> NumElements(s) != NUMELE_UNKNOWN)
    ensures HasHeader(s) && Seek(s, i) == At(Offset(EncodeAll(ws), i))
  {
    hide Holds, Fits, Offset, Seek, HasHeader, NumElements;
    ContainsHolds(s, ws);
    SeekReached(s, EncodeAll(ws), i);
    OnTheWay(EncodeAll(ws), |ws| < NUMELE_UNKNOWN, i);
  }

  lemma NoneOnTheWay(es: seq<Bytes>, counted: bool, p: int)
    requires NoWide(es)
    ensures !WideOnTheWay(es, counted, p)
  {}

  lemma OnTheWay(es: seq<Bytes>, counted: bool, i: nat)
    requires i < |es| && !WideOnTheWay(es, counted, i)
    ensures !IsWide(es[i])
  {}

  const THREE_BILLION: Bytes := [51, 48, 48, 48, 48, 48, 48, 48, 48, 48]

  lemma ThreeBillionIsPrinted()
    ensures PrintInt(3000000000) == THREE_BILLION
  {
    assert Print(3) == [51];
    assert Print(30) == [51, 48] && Print(300) == [51, 48, 48] && Print(3000) == [51, 48, 48, 48];
    assert Print(30000) == Print(3000) + [48] && Print(300000) == Print(30000) + [48] && Print(3000000) == Print(300000) + [48];
    assert Print(30000000) == Print(3000000) + [48] && Print(300000000) == Print(30000000) + [48];
    assert Print(3000000000) == Print(300000000) + [48];
  }

  /**
   * An input on which the walks fail: a list with the one string 3000000000 can be made, as that string fits
   * and appending looks at no entry, but then lpFirst, and with it LPOP, fails its assert.
   */
  lemma AppendThenPopFails(s: Bytes)
    requires Contains(s, [THREE_BILLION])
    ensures Fits(THREE_BILLION) && !Storable(THREE_BILLION)
    ensures HasHeader(s) && First(s) == Abort
  {
    hide Encoded, Holds;
    ThreeBillionIsPrinted();
    StorableIff(THREE_BILLION);
    EncodedLength(THREE_BILLION);
    FirstReached(s, EncodeAll([THREE_BILLION]));
  }
}
