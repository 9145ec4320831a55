/**
 * Building and editing listpacks (src/listpack.cpp): the byte array is refined by
 * the sequence of encodings it holds.
 */
module Listpack {
  import opened Bytes
  import opened Words
  import opened ListpackCodec
  import opened ListpackWalk

  /** An encoding and its back length. */
  function Raw(e: Bytes): Bytes { if |e| <= UINT32_MAX then e + Backlen(|e|) else [] }

  ghost predicate AllEncodings(es: seq<Bytes>) { forall i :: 0 <= i < |es| ==> IsEncoding(es[i]) }

  function Body(es: seq<Bytes>): Bytes {
    if es == [] then [] else Raw(es[0]) + Body(es[1..])
  }

  /** The position of entry `i`; of the end marker when `i` is the number of entries. */
  function Offset(es: seq<Bytes>, i: nat): nat
    requires i <= |es|
  { HEADER_SIZE + |Body(es[..i])| }

  function Size(es: seq<Bytes>): nat { HEADER_SIZE + |Body(es)| + 1 }

  /** The bytes `t` stand at position `p`. */
  ghost predicate Spells(s: Bytes, p: nat, t: Bytes) {
    p + |t| <= |s| && forall k {:trigger t[k]} :: 0 <= k < |t| ==> s[p + k] == t[k]
  }

  /**
   * The array bytes `s` represent `es`: byte count, entries and end marker are
   * in place, and the element count is right or saturated.
   */
  ghost predicate Holds(s: Bytes, es: seq<Bytes>) {
    && AllEncodings(es)
    && Size(es) <= |s| && TotalBytes(s) == Size(es)
    && Spells(s, HEADER_SIZE, Body(es) + [EOF])
    && CountOk(s, |es|)
  }

  lemma {:induction false} BodyConcat(a: seq<Bytes>, b: seq<Bytes>)
    ensures Body(a + b) == Body(a) + Body(b)
  {
    hide Raw;
    if a == [] {
      assert a + b == b;
    } else {
      assert (a + b)[1..] == a[1..] + b;
      BodyConcat(a[1..], b);
    }
  }

  lemma NoBody()
    ensures Body([]) == []
  {}

  lemma BodyOfOne(e: Bytes)
    ensures Body([e]) == Raw(e)
  {
    assert Body([e]) == Raw(e) + Body([e][1..]) == Raw(e) + [];
  }

  lemma BodySplit(es: seq<Bytes>, i: nat)
    requires i < |es|
    ensures Body(es) == Body(es[..i]) + Raw(es[i]) + Body(es[i + 1..])
    ensures Offset(es, i + 1) == Offset(es, i) + |Raw(es[i])|
  {
    hide Raw;
    assert es == es[..i] + [es[i]] + es[i + 1..];
    BodyConcat(es[..i] + [es[i]], es[i + 1..]);
    assert es[..i + 1] == es[..i] + [es[i]];
    BodyConcat(es[..i], [es[i]]);
    BodyOfOne(es[i]);
  }

  lemma SpellsBoth(s: Bytes, p: nat, a: Bytes, b: Bytes)
    requires Spells(s, p, a + b)
    ensures Spells(s, p, a) && Spells(s, p + |a|, b)
  {
    var w := a + b;
    assert forall k :: 0 <= k < |a| ==> a[k] == w[k];
    forall k | 0 <= k < |b| ensures s[p + |a| + k] == b[k] { assert s[p + (|a| + k)] == w[|a| + k]; }
  }

  /** Three parts one behind the other. */
  lemma SpellsParts(s: Bytes, p: nat, a: Bytes, b: Bytes, c: Bytes)
    requires Spells(s, p, a + b + c)
    ensures Spells(s, p, a) && Spells(s, p + |a|, b) && Spells(s, p + |a| + |b|, c)
  {
    hide Spells;
    SpellsBoth(s, p, a + b, c);
    SpellsBoth(s, p, a, b);
  }

  /** Entry `i` and its back length lie between its offset and the next one. */
  lemma EntryBytes(s: Bytes, es: seq<Bytes>, i: nat)
    requires Holds(s, es) && i < |es|
    ensures Offset(es, i) < Offset(es, i + 1) == Offset(es, i) + |Raw(es[i])| <= Size(es) - 1
    ensures Spells(s, Offset(es, i), es[i])
    ensures |es[i]| <= UINT32_MAX && Spells(s, Offset(es, i) + |es[i]|, Backlen(|es[i]|))
  {
    hide Spells, Body, Raw, Backlen;
    BodySplit(es, i);
    var before, e, after := Body(es[..i]), es[i], Body(es[i + 1..]);
    SizeIsLocal(e, []);
    RawSize(e);
    Associate(before + Raw(e), after, [EOF]);
    SpellsParts(s, HEADER_SIZE, before, Raw(e), after + [EOF]);
    RawParts(s, Offset(es, i), e);
  }

  lemma RawParts(s: Bytes, p: nat, e: Bytes)
    requires |e| <= UINT32_MAX && Spells(s, p, Raw(e))
    ensures Spells(s, p, e) && Spells(s, p + |e|, Backlen(|e|))
  {
    hide Backlen, Spells;
    SpellsBoth(s, p, e, Backlen(|e|));
  }

  /** What the readers see at entry `i`: its encoding, then bytes that do not matter. */
  lemma EntryView(s: Bytes, es: seq<Bytes>, i: nat)
    requires Holds(s, es) && i < |es|
    ensures Readable(s, Offset(es, i)) && Skip(s, Offset(es, i)) == Offset(es, i + 1)
    ensures EncodedSize(s[Offset(es, i)..]) == |es[i]| && s[Offset(es, i)] == es[i][0]
    ensures PayloadReadable(s[Offset(es, i)..])
    ensures GetWithSize(s[Offset(es, i)..]) == GetWithSize(es[i])
  {
    hide GetWithSize, PayloadReadable, EncodedSize, Backlen, Spells, Offset, Body, Size;
    EntryBytes(s, es, i);
    RawSize(es[i]);
    hide Raw;
    var lo, e := Offset(es, i), es[i];
    var tail := SpellsTail(s, lo, e);
    SizeIsLocal(e, tail);
    GetIsLocal(e, tail);
    assert s[lo] == s[lo..][0] == (e + tail)[0];
  }

  lemma RawSize(e: Bytes)
    requires |e| <= UINT32_MAX
    ensures |Raw(e)| == |e| + BacklenBytes(|e|)
  {}

  lemma SpellsTail(s: Bytes, p: nat, e: Bytes) returns (tail: Bytes)
    requires Spells(s, p, e)
    ensures p + |e| <= |s| && s[p..] == e + tail
  {
    tail := s[p + |e|..];
    assert s[p..p + |e|] == e;
    assert s[p..] == s[p..p + |e|] + tail;
  }

  lemma EndMarker(s: Bytes, es: seq<Bytes>)
    requires Holds(s, es)
    ensures Offset(es, |es|) == Size(es) - 1 && s[Size(es) - 1] == EOF
  {
    assert es[..|es|] == es;
    assert (Body(es) + [EOF])[|Body(es)|] == EOF;
  }

  // ----- what the validator and the walks make of a listpack built here

  /** A validation step at entry `i` succeeds exactly when the entry is not a 64-bit integer. */
  lemma StepOverEntry(s: Bytes, es: seq<Bytes>, i: nat)
    requires Holds(s, es) && i < |es|
    ensures Size(es) <= |s|
    ensures ValidateNext(s, Size(es), Offset(es, i)) == if IsWide(es[i]) then Invalid else To(Offset(es, i + 1))
  {
    hide Spells, Body, Raw, EncodedSize, Backlen, ValidateNext;
    EntryBytes(s, es, i);
    EntryView(s, es, i);
    StepOverEncoding(s, Size(es), Offset(es, i), es[i]);
  }

  lemma StepOverEncoding(s: Bytes, n: nat, p: nat, e: Bytes)
    requires HEADER_SIZE <= p < n <= |s| && IsEncoding(e) && |e| <= UINT32_MAX && p + |Raw(e)| < n
    requires HeaderReadable(s[p..]) && s[p] == e[0] && EncodedSize(s[p..]) == |e|
    requires Spells(s, p + |e|, Backlen(|e|))
    ensures ValidateNext(s, n, p) == if IsWide(e) then Invalid else To(p + |Raw(e)|)
  {
    hide DecodedBacklen, Backlen, BacklenFrom;
    if !IsWide(e) {
      BacklenRoundTrip(s, p + |Raw(e)|, |e|);
      NoWrap(|e| + BacklenBytes(|e|));
    }
  }

  ghost predicate NoWide(es: seq<Bytes>) { forall i :: 0 <= i < |es| ==> !IsWide(es[i]) }

  function Offsets(es: seq<Bytes>): (offs: seq<nat>)
    ensures |offs| == |es| + 1
  { seq(|es| + 1, i requires 0 <= i <= |es| => Offset(es, i)) }

  /** Without 64-bit integers, the entries tile the buffer and every traversal works. */
  lemma HoldsTiled(s: Bytes, es: seq<Bytes>)
    requires Holds(s, es) && NoWide(es)
    ensures Tiled(s, Offsets(es))
  {
    hide Spells, Raw, IsEncoding, ValidateNext;
    var offs, n := Offsets(es), Size(es);
    forall i | 0 <= i < |offs| - 1 ensures ValidateNext(s, n, offs[i]) == To(offs[i + 1]) {
      StepOverEntry(s, es, i);
    }
    EndMarker(s, es);
    assert Body(es[..0]) == [];
  }

  lemma FirstWide(es: seq<Bytes>) returns (k: nat)
    requires !NoWide(es)
    ensures k < |es| && IsWide(es[k]) && NoWide(es[..k])
  {
    k := 0;
    while !IsWide(es[k])
      invariant k < |es| && NoWide(es[..k + (if IsWide(es[k]) then 0 else 1)])
      decreases |es| - k
    {
      k := k + 1;
    }
  }

  /** Deep validation accepts a listpack built here exactly when it holds no 64-bit integer. */
  lemma IntactIffNoWide(s: Bytes, es: seq<Bytes>)
    requires Holds(s, es)
    ensures Intact(s, Size(es), true) <==> NoWide(es)
  {
    EndMarker(s, es);
    if NoWide(es) {
      HoldsTiled(s, es);
    } else {
      var k := FirstWide(es);
      var walk := Offsets(es)[..k + 1];
      forall i | 0 <= i < |walk| - 1 ensures ValidateNext(s, Size(es), walk[i]) == To(walk[i + 1]) {
        assert !IsWide(es[..k][i]);
        StepOverEntry(s, es, i);
      }
      assert Body(es[..0]) == [];
      StepOverEntry(s, es, k);
      WalkStops(s, Size(es), walk);
      EntryView(s, es, k);
    }
  }

  // ----- editing

  datatype Where = Before | After | Replace

  /** The arguments elestr and eleint of lpInsert; neither means deletion. */
  datatype Operand = Remove | Str(s: Bytes) | Int(v: int)

  ghost predicate ValidOperand(op: Operand) {
    match op
    case Remove => true
    case Str(s) => |s| <= UINT32_MAX
    case Int(v) => INT64_MIN <= v <= INT64_MAX
  }

  /** The encoding to store; empty for a deletion. */
  ghost function Stored(op: Operand): (e: Bytes)
    requires ValidOperand(op)
    ensures |e| < UINT32_MAX + 10
  {
    match op
    case Remove => []
    case Str(s) => Encoded(s)
    case Int(v) => EncodedInt(v)
  }

  lemma StoredIsEncoding(op: Operand)
    requires ValidOperand(op) && op != Remove && |Stored(op)| <= UINT32_MAX
    ensures IsEncoding(Stored(op))
  {
    match op
    case Str(s) => EncodedIsEncoding(s);
    case Int(v) => EncodedIntIsEncoding(v);
  }

  /** lpInsert's target exists: an entry, or for insertion before it also the end marker. */
  ghost predicate ValidTarget(es: seq<Bytes>, op: Operand, where: Where, i: nat) {
    i <= |es| && (op == Remove || where != Before ==> i < |es|)
  }

  /** The element sequence after lpInsert at entry `i`. */
  ghost function Edited(es: seq<Bytes>, op: Operand, where: Where, i: nat): seq<Bytes>
    requires ValidTarget(es, op, where, i) && ValidOperand(op) && |Stored(op)| <= UINT32_MAX
  {
    if op == Remove then es[..i] + es[i + 1..]
    else
      StoredIsEncoding(op);
      var e: Bytes := Stored(op);
      match where
      case Before => es[..i] + [e] + es[i..]
      case After => es[..i + 1] + [e] + es[i + 1..]
      case Replace => es[..i] + [e] + es[i + 1..]
  }

  /** The byte count lpInsert computes for its result. */
  ghost function NewSize(es: seq<Bytes>, op: Operand, where: Where, i: nat): int
    requires ValidTarget(es, op, where, i) && ValidOperand(op)
  {
    var added := if op == Remove then 0 else |Stored(op)| + BacklenBytes(|Stored(op)|);
    Size(es) + added - (if op == Remove || where == Replace then |Raw(es[i])| else 0)
  }

  /** `s` with `t` written over it at position `at`. */
  ghost function Patch(s: Bytes, at: nat, t: Bytes): (r: Bytes)
    requires at + |t| <= |s|
    ensures |r| == |s|
  { s[..at] + t + s[at + |t|..] }

  lemma PatchTwice(s: Bytes, at: nat, a: Bytes, b: Bytes)
    requires at + |a| + |b| <= |s|
    ensures Patch(Patch(s, at, a), at + |a|, b) == Patch(s, at, a + b)
  {}

  lemma PatchSpells(s: Bytes, at: nat, t: Bytes, p: nat, x: Bytes)
    requires at + |t| <= |s|
    ensures Spells(Patch(s, at, t), at, t)
    ensures Spells(s, p, x) && (p + |x| <= at || at + |t| <= p) ==> Spells(Patch(s, at, t), p, x)
  {
    var r := Patch(s, at, t);
    assert r[at..at + |t|] == t;
    if Spells(s, p, x) && (p + |x| <= at || at + |t| <= p) { assert r[p..p + |x|] == s[p..p + |x|]; }
  }

  lemma MovedSpells(s: Bytes, dst: nat, src: nat, pre: Bytes, post: Bytes)
    requires src + |post| <= |s| && dst + |post| <= |s| && |pre| <= dst
    requires Spells(s, 0, pre) && Spells(s, src, post)
    ensures Spells(Patch(s, dst, s[src..src + |post|]), 0, pre)
    ensures Spells(Patch(s, dst, s[src..src + |post|]), dst, post)
  {
    assert s[src..src + |post|] == post;
    PatchSpells(s, dst, post, 0, pre);
  }

  /** memmove: the source bytes as they were, even when the ranges overlap. */
  method Memmove(a: array<Byte>, dst: nat, src: nat, n: nat)
    requires src + n <= a.Length && dst + n <= a.Length
    modifies a
    ensures a[..] == Patch(old(a[..]), dst, old(a[..])[src..src + n])
  {
    forall k | 0 <= k < n { a[dst + k] := a[src + k]; }
  }

  /** memcpy of `src` to position `dst`. */
  method Memcpy(a: array<Byte>, dst: nat, src: Bytes)
    requires dst + |src| <= a.Length
    modifies a
    ensures a[..] == Patch(old(a[..]), dst, src)
  {
    forall k | 0 <= k < |src| { a[dst + k] := src[k]; }
  }

  /** new unsigned char[n] followed by memcpy of the first `m` bytes. */
  method Realloc(lp: array<Byte>, n: nat, m: nat) returns (r: array<Byte>)
    requires m <= lp.Length && m <= n
    ensures fresh(r) && r.Length == n && r[..][..m] == lp[..][..m]
  {
    r := new Byte[n](_ => 0);
    forall k | 0 <= k < m { r[k] := lp[k]; }
  }

  /** lpInsert, "realloc before". */
  method Grow(lp: array<Byte>, oldBytes: nat, newBytes: nat) returns (r: array<Byte>)
    requires oldBytes <= lp.Length
    ensures if newBytes > oldBytes then fresh(r) && r.Length == newBytes else r == lp
    ensures r[..][..oldBytes] == lp[..][..oldBytes]
  {
    r := lp;
    if newBytes > oldBytes { r := Realloc(lp, newBytes, oldBytes); }
  }

  /** lpInsert, "realloc after". */
  method Shrink(lp: array<Byte>, oldBytes: nat, newBytes: nat) returns (r: array<Byte>)
    requires newBytes <= lp.Length
    ensures if newBytes < oldBytes then fresh(r) && r.Length == newBytes else r == lp
    ensures r[..][..newBytes] == lp[..][..newBytes]
  {
    r := lp;
    if newBytes < oldBytes { r := Realloc(lp, newBytes, newBytes); }
  }

  lemma SpellsPrefix(s: Bytes, t: Bytes, m: nat, p: nat, x: Bytes)
    requires m <= |s| && m <= |t| && s[..m] == t[..m] && p + |x| <= m && Spells(s, p, x)
    ensures Spells(t, p, x)
  {
    forall k | 0 <= k < |x| ensures t[p + k] == x[k] { assert s[..m][p + k] == t[..m][p + k]; }
  }

  /**
   * lpInsert's buffer handling: room is made for `gap` bytes in the place of `replaced` bytes at `poff`,
   * growing before the move and shrinking after it. With `replaced == 0` the move is the LP_BEFORE one.
   * `pre` and `post` are the bytes that stay: up to `poff`, and from `poff + replaced` on.
   */
  method OpenGap(lp: array<Byte>, oldBytes: nat, poff: nat, gap: nat, replaced: nat, ghost pre: Bytes, ghost post: Bytes)
    returns (r: array<Byte>)
    requires oldBytes <= lp.Length && |pre| == poff && poff + replaced + |post| == oldBytes
    requires Spells(lp[..], 0, pre) && Spells(lp[..], poff + replaced, post)
    modifies lp
    ensures var newBytes := oldBytes + gap - replaced;
            && (r == lp || fresh(r)) && newBytes <= r.Length
            && (newBytes == oldBytes ==> r == lp) && (newBytes != oldBytes ==> r.Length == newBytes)
    ensures Spells(r[..], 0, pre) && Spells(r[..], poff + gap, post)
  {
    hide Spells, Patch;
    var newBytes := oldBytes + gap - replaced;
    ghost var s0 := lp[..];
    var grown := Grow(lp, oldBytes, newBytes);
    ghost var s1 := grown[..];
    SpellsPrefix(s0, s1, oldBytes, 0, pre);
    SpellsPrefix(s0, s1, oldBytes, poff + replaced, post);
    Memmove(grown, poff + gap, poff + replaced, oldBytes - poff - replaced);
    MovedSpells(s1, poff + gap, poff + replaced, pre, post);
    ghost var s2 := grown[..];
    r := Shrink(grown, oldBytes, newBytes);
    SpellsPrefix(s2, r[..], newBytes, 0, pre);
    SpellsPrefix(s2, r[..], newBytes, poff + gap, post);
  }

  /** Entry boundary `j` cuts the bytes where it cuts the sequence. */
  lemma CutAt(s: Bytes, es: seq<Bytes>, j: nat)
    requires Holds(s, es) && j <= |es|
    ensures Offset(es, j) + |Body(es[j..])| + 1 == Size(es)
    ensures Spells(s, HEADER_SIZE, Body(es[..j]))
    ensures Spells(s, Offset(es, j), Body(es[j..]) + [EOF])
  {
    hide Spells, Body, IsEncoding, AllEncodings, CountOk;
    var pre, post := Body(es[..j]), Body(es[j..]);
    assert es == es[..j] + es[j..];
    BodyConcat(es[..j], es[j..]);
    Associate(pre, post, [EOF]);
    SpellsBoth(s, HEADER_SIZE, pre, post + [EOF]);
  }

  lemma Glue(t: Bytes, p: nat, a: Bytes, b: Bytes, c: Bytes)
    requires Spells(t, p, a) && Spells(t, p + |a|, b) && Spells(t, p + |a| + |b|, c)
    ensures Spells(t, p, a + b + c)
  {
    var q, r, e := p + |a|, p + |a| + |b|, p + |a| + |b| + |c|;
    assert t[p..e] == t[p..q] + t[q..r] + t[r..e];
  }

  lemma GlueToEnd(t: Bytes, p: nat, a: Bytes, b: Bytes, c: Bytes)
    requires Spells(t, p, a) && Spells(t, p + |a|, b) && Spells(t, p + |a| + |b|, c + [EOF])
    ensures Spells(t, p, a + b + c + [EOF])
  {
    hide Spells;
    Glue(t, p, a, b, c + [EOF]);
    Associate(a + b, c, [EOF]);
  }

  /** Three stretches of entries side by side are their concatenation. */
  lemma Splice(a: seq<Bytes>, mid: seq<Bytes>, c: seq<Bytes>, t: Bytes)
    requires Spells(t, HEADER_SIZE, Body(a)) && Spells(t, HEADER_SIZE + |Body(a)|, Body(mid))
    requires Spells(t, HEADER_SIZE + |Body(a)| + |Body(mid)|, Body(c) + [EOF])
    ensures Size(a + mid + c) == HEADER_SIZE + |Body(a)| + |Body(mid)| + |Body(c)| + 1
    ensures Spells(t, HEADER_SIZE, Body(a + mid + c) + [EOF]) && Size(a + mid + c) <= |t|
  {
    hide Spells, Body;
    SpellsFits(t, HEADER_SIZE + |Body(a)| + |Body(mid)|, Body(c) + [EOF]);
    BodyConcat(a + mid, c);
    BodyConcat(a, mid);
    GlueToEnd(t, HEADER_SIZE, Body(a), Body(mid), Body(c));
  }

  lemma SpellsFits(s: Bytes, p: nat, t: Bytes)
    requires Spells(s, p, t)
    ensures p + |t| <= |s|
  {}

  lemma Associate(a: Bytes, b: Bytes, c: Bytes)
    ensures a + (b + c) == a + b + c
  {}

  /** A kept prefix still spells what lay inside it. */
  lemma SpellsKept(s: Bytes, t: Bytes, m: nat, p: nat, x: Bytes)
    requires m <= |s| && Spells(t, 0, s[..m]) && Spells(s, p, x) && p + |x| <= m
    ensures Spells(t, p, x)
  {
    forall k | 0 <= k < |x| ensures t[p + k] == x[k] { assert t[0 + (p + k)] == s[..m][p + k] == s[p + k]; }
  }

  /** lpEncodeString: writes the encoding of `s` at `dst`. */
  method LpEncodeString(buf: array<Byte>, dst: nat, s: Bytes)
    requires |s| <= UINT32_MAX && dst + |EncodedStr(s)| <= buf.Length
    modifies buf
    ensures buf[..] == Patch(old(buf[..]), dst, EncodedStr(s))
  {
    hide Patch;
    var len := |s|;
    var header: Bytes;
    if len < 64 {
      header := [len + 0x80];
    } else if len < 4096 {
      header := [len / 0x100 + 0xE0, len % 0x100];
    } else {
      header := [0xF0, B0(len), B1(len), B2(len), B3(len)];
    }
    Memcpy(buf, dst, header);
    Memcpy(buf, dst + |header|, s);
    PatchTwice(old(buf[..]), dst, header, s);
  }

  /** What lpInsert will copy: nothing, an integer already encoded, or a string still to be encoded. */
  datatype Payload = Nothing | IntBytes(b: Bytes) | StrBytes(s: Bytes)

  /** `payload` encodes to `e`. */
  predicate Encodes(payload: Payload, e: Bytes) {
    match payload
    case Nothing => e == []
    case IntBytes(b) => b == e
    case StrBytes(s) => |s| <= UINT32_MAX && EncodedStr(s) == e
  }

  /** Writes the encoded element and its back length into the gap. */
  method FillGap(lp: array<Byte>, poff: nat, payload: Payload, enclen: nat, backlen: Bytes, ghost e: Bytes)
    requires Encodes(payload, e) && payload != Nothing && enclen == |e| && poff + |e + backlen| <= lp.Length
    modifies lp
    ensures lp[..] == Patch(old(lp[..]), poff, e + backlen)
  {
    match payload {
      case IntBytes(b) => Memcpy(lp, poff, b);
      case StrBytes(s) => LpEncodeString(lp, poff, s);
    }
    Memcpy(lp, poff + enclen, backlen);
    PatchTwice(old(lp[..]), poff, e, backlen);
  }

  /** Where lpInsert cuts the old sequence: entries before `Lo` and from `Hi` on stay. */
  ghost function Lo(op: Operand, where: Where, i: nat): nat { if op != Remove && where == After then i + 1 else i }

  ghost function Hi(op: Operand, where: Where, i: nat): nat { if op != Remove && where == Before then i else i + 1 }

  ghost function Added(op: Operand): seq<Bytes>
    requires ValidOperand(op) && |Stored(op)| <= UINT32_MAX
  {
    if op == Remove then [] else [Stored(op)]
  }

  lemma EditedParts(es: seq<Bytes>, op: Operand, where: Where, i: nat)
    requires ValidTarget(es, op, where, i) && ValidOperand(op) && |Stored(op)| <= UINT32_MAX
    ensures Lo(op, where, i) <= Hi(op, where, i) <= |es|
    ensures Edited(es, op, where, i) == es[..Lo(op, where, i)] + Added(op) + es[Hi(op, where, i)..]
  {}

  lemma JoinSize(a: seq<Bytes>, mid: seq<Bytes>, c: seq<Bytes>)
    ensures Size(a + mid + c) == Size(a) + |Body(mid)| + |Body(c)|
  {
    BodyConcat(a + mid, c);
    BodyConcat(a, mid);
  }

  lemma EditedSize(es: seq<Bytes>, op: Operand, where: Where, i: nat)
    requires ValidTarget(es, op, where, i) && ValidOperand(op) && |Stored(op)| <= UINT32_MAX
    ensures Lo(op, where, i) <= Hi(op, where, i) <= |es|
    ensures NewSize(es, op, where, i) == Size(Edited(es, op, where, i)) ==
            Offset(es, Lo(op, where, i)) + |Body(Added(op))| + |Body(es[Hi(op, where, i)..])| + 1
    ensures Size(es) == Offset(es, Hi(op, where, i)) + |Body(es[Hi(op, where, i)..])| + 1
  {
    hide Body, Raw, Encoded, EncodedInt;
    var lo, hi := Lo(op, where, i), Hi(op, where, i);
    EditedParts(es, op, where, i);
    JoinSize(es[..lo], Added(op), es[hi..]);
    SplitSize(es, hi);
    if i < |es| { BodySplit(es, i); }
    if op == Remove {
      NoBody();
    } else {
      BodyOfOne(Stored(op));
      RawSize(Stored(op));
    }
  }

  lemma SplitSize(es: seq<Bytes>, j: nat)
    requires j <= |es|
    ensures |Body(es)| == |Body(es[..j])| + |Body(es[j..])|
  {
    assert es == es[..j] + es[j..];
    BodyConcat(es[..j], es[j..]);
  }

  /** lpEncodeGetType, or the caller's integer buffer: the integer form if there is one, and the encoded length. */
  method EncodeGetType(op: Operand) returns (payload: Payload, enclen: nat)
    requires ValidOperand(op)
    ensures enclen == |Stored(op)| && Encodes(payload, Stored(op)) && (payload == Nothing <==> op == Remove)
  {
    match op {
      case Remove => return Nothing, 0;
      case Int(v) =>
        var buf := new Byte[9](_ => 0);
        enclen := LpEncodeInteger(v, buf);
        payload := IntBytes(buf[..enclen]);
      case Str(s) =>
        var v := LpStringToInt64(s);
        if v.Some? {
          Int64Range(s);
          var buf := new Byte[9](_ => 0);
          enclen := LpEncodeInteger(v.value, buf);
          payload := IntBytes(buf[..enclen]);
        } else {
          payload := StrBytes(s);
          enclen := if |s| < 64 then 1 + |s| else if |s| < 4096 then 2 + |s| else 5 + |s|;
        }
    }
  }

  /** lpInsert's last step: the element count, unless it is unknown or unchanged, and the byte count. */
  method UpdateHeader(lp: array<Byte>, change: int, newBytes: nat)
    requires lp.Length >= HEADER_SIZE && newBytes <= UINT32_MAX && -1 <= change <= 1
    requires NumElements(lp[..]) + change >= 0
    modifies lp
    ensures lp[..][HEADER_SIZE..] == old(lp[..][HEADER_SIZE..])
    ensures TotalBytes(lp[..]) == newBytes
    ensures NumElements(lp[..]) == CountAfter(old(NumElements(lp[..])), change)
  {
    var num := NumElements(lp[..]);
    if change != 0 && num != NUMELE_UNKNOWN { SetNumElements(lp, num + change); }
    SetTotalBytes(lp, newBytes);
  }

  function CountAfter(num: nat, change: int): int { if num == NUMELE_UNKNOWN then num else num + change }

  lemma SpellsBeyondHeader(s: Bytes, t: Bytes, x: Bytes)
    requires |s| == |t| >= HEADER_SIZE && s[HEADER_SIZE..] == t[HEADER_SIZE..] && Spells(s, HEADER_SIZE, x)
    ensures Spells(t, HEADER_SIZE, x)
  {
    assert s[HEADER_SIZE..HEADER_SIZE + |x|] == s[HEADER_SIZE..][..|x|];
    assert t[HEADER_SIZE..HEADER_SIZE + |x|] == t[HEADER_SIZE..][..|x|];
  }

  /** The element count changes by one unless an element is replaced. */
  ghost function CountChange(op: Operand, where: Where): int {
    if op == Remove then -1 else if where == Replace then 0 else 1
  }

  /** *newp: the stored element, or after a deletion the element to its right, null at the end marker. */
  ghost function NewPosition(es: seq<Bytes>, op: Operand, where: Where, i: nat): Option<nat>
    requires i <= |es|
  {
    if op == Remove && i + 1 == |es| then None
    else if op != Remove && where == After && i < |es| then Some(Offset(es, i + 1))
    else Some(Offset(es, i))
  }

  /** The position where lpInsert writes, and the length of the entry it overwrites. */
  method Locate(lp: array<Byte>, isDelete: bool, p: nat, where: Where, ghost es: seq<Bytes>, ghost op: Operand, ghost i: nat)
    returns (poff: nat, w: Where, replaced: nat)
    requires Holds(lp[..], es) && ValidTarget(es, op, where, i) && p == Offset(es, i) && isDelete == (op == Remove)
    ensures Lo(op, where, i) <= Hi(op, where, i) <= |es|
    ensures poff == Offset(es, Lo(op, where, i)) && replaced == Offset(es, Hi(op, where, i)) - poff
    ensures w == Replace <==> isDelete || where == Replace
  {
    w, poff, replaced := if isDelete then Replace else where, p, 0;
    if w == After {
      EntryView(lp[..], es, i);
      EntryBytes(lp[..], es, i);
      poff, w := Skip(lp[..], p), Before;
      assert HEADER_SIZE <= poff < TotalBytes(lp[..]);  // ASSERT_INTEGRITY
    }
    if w == Replace {
      EntryView(lp[..], es, i);
      EntryBytes(lp[..], es, i);
      replaced := EncodedSize(lp[..][poff..]);
      replaced := replaced + BacklenBytes(replaced);
      assert HEADER_SIZE <= poff && poff + replaced < TotalBytes(lp[..]);  // ASSERT_INTEGRITY_LEN
    }
  }

  /** The bytes from an entry boundary on start with the end marker only at the end. */
  lemma RestStartsWithEof(t: Bytes, p: nat, es: seq<Bytes>)
    requires AllEncodings(es) && Spells(t, p, Body(es) + [EOF])
    ensures p < |t| && (t[p] == EOF <==> es == [])
  {
    var x := Body(es) + [EOF];
    assert t[p] == t[p..p + |x|][0] == x[0];
    if es != [] { SizeIsLocal(es[0], []); }
  }

  lemma EncodingsOf(es: seq<Bytes>, lo: nat, hi: nat, mid: seq<Bytes>)
    requires AllEncodings(es) && AllEncodings(mid) && lo <= hi <= |es|
    ensures AllEncodings(es[hi..]) && AllEncodings(es[..lo] + mid + es[hi..])
  {}

  /** What the buffer holds once the element is stored, apart from the header. */
  lemma EditedBytes(s: Bytes, es: seq<Bytes>, lo: nat, hi: nat, mid: seq<Bytes>, t: Bytes, poff: nat)
    requires Holds(s, es) && lo <= hi <= |es| && AllEncodings(mid)
    requires poff == Offset(es, lo) <= |s| && Spells(t, 0, s[..poff]) && Spells(t, poff, Body(mid))
    requires Spells(t, poff + |Body(mid)|, Body(es[hi..]) + [EOF])
    ensures var edited := es[..lo] + mid + es[hi..];
            AllEncodings(edited) && Size(edited) <= |t| && Spells(t, HEADER_SIZE, Body(edited) + [EOF])
  {
    hide Spells, IsEncoding, Body;
    EncodingsOf(es, lo, hi, mid);
    CutAt(s, es, lo);
    SpellsKept(s, t, poff, HEADER_SIZE, Body(es[..lo]));
    Splice(es[..lo], mid, es[hi..], t);
  }

  /** `mid` is what the payload adds to the sequence, and `enclen` and `backlen` fit it. */
  ghost predicate Adds(payload: Payload, enclen: nat, backlen: Bytes, mid: seq<Bytes>) {
    if payload == Nothing then mid == [] && enclen == 0 && backlen == []
    else
      && |mid| == 1 && Encodes(payload, mid[0]) && IsEncoding(mid[0])
      && enclen == |mid[0]| <= UINT32_MAX && backlen == Backlen(enclen)
  }

  /** lpInsert's byte moves: makes room at `poff` and stores the element there. */
  method Store(lp: array<Byte>, oldBytes: nat, payload: Payload, enclen: nat, backlen: Bytes, poff: nat, replaced: nat,
               ghost e: Bytes, ghost pre: Bytes, ghost post: Bytes)
    returns (r: array<Byte>)
    requires oldBytes <= lp.Length && |pre| == poff && poff + replaced + |post| == oldBytes
    requires Spells(lp[..], 0, pre) && Spells(lp[..], poff + replaced, post)
    requires Encodes(payload, e) && enclen == |e| && (payload == Nothing ==> backlen == [])
    modifies lp
    ensures var newBytes := oldBytes + enclen + |backlen| - replaced;
            && (r == lp || fresh(r)) && newBytes <= r.Length
            && (newBytes == oldBytes ==> r == lp) && (newBytes != oldBytes ==> r.Length == newBytes)
    ensures Spells(r[..], 0, pre) && Spells(r[..], poff, e + backlen) && Spells(r[..], poff + |e + backlen|, post)
  {
    r := OpenGap(lp, oldBytes, poff, enclen + |backlen|, replaced, pre, post);
    if payload != Nothing {
      ghost var gapped := r[..];
      FillGap(r, poff, payload, enclen, backlen, e);
      PatchSpells(gapped, poff, e + backlen, 0, pre);
      PatchSpells(gapped, poff, e + backlen, poff + |e + backlen|, post);
    }
  }

  /** The bytes of an edited sequence stand behind a header whose count is still the old one. */
  ghost predicate Refilled(t: Bytes, edited: seq<Bytes>, num: nat) {
    && AllEncodings(edited) && Size(edited) <= |t| && Spells(t, HEADER_SIZE, Body(edited) + [EOF])
    && |t| >= HEADER_SIZE && NumElements(t) == num
  }

  /** What the byte moves start from. */
  lemma BeforeStore(s: Bytes, es: seq<Bytes>, lo: nat, hi: nat, mid: seq<Bytes>,
                    payload: Payload, enclen: nat, backlen: Bytes, poff: nat, replaced: nat)
    returns (e: Bytes)
    requires Holds(s, es) && lo <= hi <= |es| && poff == Offset(es, lo) && replaced == Offset(es, hi) - poff
    requires Adds(payload, enclen, backlen, mid)
    ensures |s| >= HEADER_SIZE && HEADER_SIZE <= poff <= TotalBytes(s) == Size(es) <= |s|
    ensures poff + replaced + |Body(es[hi..]) + [EOF]| == TotalBytes(s)
    ensures Spells(s, 0, s[..poff]) && Spells(s, poff + replaced, Body(es[hi..]) + [EOF])
    ensures Encodes(payload, e) && enclen == |e| && (payload == Nothing ==> backlen == []) && Body(mid) == e + backlen
    ensures AllEncodings(mid) && (payload == Nothing ==> |Body(mid)| == 0)
  {
    hide Spells, Body, AllEncodings, CountOk, Adds, Encodes;
    CutAt(s, es, lo);
    CutAt(s, es, hi);
    SpellsItself(s, poff);
    e := AddedBytes(payload, enclen, backlen, mid);
  }

  lemma AddedBytes(payload: Payload, enclen: nat, backlen: Bytes, mid: seq<Bytes>) returns (e: Bytes)
    requires Adds(payload, enclen, backlen, mid)
    ensures Encodes(payload, e) && enclen == |e| && (payload == Nothing ==> backlen == []) && Body(mid) == e + backlen
    ensures AllEncodings(mid) && (payload == Nothing ==> |Body(mid)| == 0)
  {
    hide IsEncoding, EncodedStr, Backlen;
    e := if mid == [] then [] else mid[0];
    if mid == [] {
      NoBody();
    } else {
      BodyOfOne(mid[0]);
    }
  }

  lemma SpellsItself(s: Bytes, p: nat)
    requires p <= |s|
    ensures Spells(s, 0, s[..p])
  {}

  /** What the byte moves end with. */
  lemma AfterStore(s: Bytes, t: Bytes, es: seq<Bytes>, lo: nat, hi: nat, mid: seq<Bytes>, poff: nat)
    requires Holds(s, es) && lo <= hi <= |es| && AllEncodings(mid) && HEADER_SIZE <= poff == Offset(es, lo) <= |s|
    requires Spells(t, 0, s[..poff]) && Spells(t, poff, Body(mid))
    requires Spells(t, poff + |Body(mid)|, Body(es[hi..]) + [EOF])
    ensures Refilled(t, es[..lo] + mid + es[hi..], NumElements(s))
    ensures poff + |Body(mid)| < |t| && (t[poff + |Body(mid)|] == EOF <==> hi == |es|)
  {
    hide Spells, Body, IsEncoding;
    EditedBytes(s, es, lo, hi, mid, t, poff);
    EncodingsOf(es, lo, hi, mid);
    RestStartsWithEof(t, poff + |Body(mid)|, es[hi..]);
    HeaderUntouched(s, t, poff);
  }

  /** lpInsert between the size check and the header: makes room and stores the entry. */
  method StoreEntry(lp: array<Byte>, payload: Payload, enclen: nat, backlen: Bytes, poff: nat, replaced: nat,
                    ghost es: seq<Bytes>, ghost lo: nat, ghost hi: nat, ghost mid: seq<Bytes>)
    returns (r: array<Byte>, newp: Option<nat>)
    requires Holds(lp[..], es) && lo <= hi <= |es| && poff == Offset(es, lo) && replaced == Offset(es, hi) - poff
    requires Adds(payload, enclen, backlen, mid)
    modifies lp
    ensures var newBytes := Size(es) + enclen + |backlen| - replaced;
            && (r == lp || fresh(r)) && newBytes <= r.Length
            && (newBytes == Size(es) ==> r == lp) && (newBytes != Size(es) ==> r.Length == newBytes)
    ensures Refilled(r[..], es[..lo] + mid + es[hi..], old(NumElements(lp[..])))
    ensures newp == if payload == Nothing && hi == |es| then None else Some(poff)
  {
    hide Spells, IsEncoding, Encodes, Adds, Body, AllEncodings, Refilled;
    ghost var s := lp[..];
    ghost var e := BeforeStore(s, es, lo, hi, mid, payload, enclen, backlen, poff, replaced);
    r := Store(lp, TotalBytes(lp[..]), payload, enclen, backlen, poff, replaced, e, s[..poff], Body(es[hi..]) + [EOF]);
    AfterStore(s, r[..], es, lo, hi, mid, poff);
    newp := Some(poff);
    if payload == Nothing && r[poff] == EOF { newp := None; }
  }

  /** With the header written, the buffer is a listpack again. */
  lemma HeaderCompletes(t: Bytes, final: Bytes, edited: seq<Bytes>, count: nat, num: nat, change: int)
    requires Refilled(t, edited, num) && (num == count || num == NUMELE_UNKNOWN) && count + change == |edited|
    requires count <= NUMELE_UNKNOWN || num == NUMELE_UNKNOWN
    requires |t| == |final| && t[HEADER_SIZE..] == final[HEADER_SIZE..]
    requires TotalBytes(final) == Size(edited) && NumElements(final) == CountAfter(num, change)
    ensures Holds(final, edited)
  {
    SpellsBeyondHeader(t, final, Body(edited) + [EOF]);
  }

  /** lpInsert from the size check on: makes room, stores the entry, updates the header. */
  method Rewrite(lp: array<Byte>, payload: Payload, enclen: nat, backlen: Bytes, poff: nat, replaced: nat,
                 newBytes: nat, change: int, ghost es: seq<Bytes>, ghost lo: nat, ghost hi: nat, ghost mid: seq<Bytes>)
    returns (r: array<Byte>, newp: Option<nat>)
    requires Holds(lp[..], es) && lo <= hi <= |es| && poff == Offset(es, lo) && replaced == Offset(es, hi) - poff
    requires Adds(payload, enclen, backlen, mid)
    requires newBytes == Size(es[..lo] + mid + es[hi..]) == Size(es) + enclen + |backlen| - replaced <= UINT32_MAX
    requires change == |mid| - (hi - lo) && -1 <= change <= 1
    modifies lp
    ensures Holds(r[..], es[..lo] + mid + es[hi..])
    ensures (r == lp || fresh(r)) && (if newBytes == Size(es) then r == lp else r.Length == newBytes)
    ensures NumElements(r[..]) == CountAfter(old(NumElements(lp[..])), change)
    ensures newp == if payload == Nothing && hi == |es| then None else Some(poff)
  {
    ghost var num := NumElements(lp[..]);
    assert CountOk(lp[..], |es|);
    hide Adds, Spells, Body;
    r, newp := StoreEntry(lp, payload, enclen, backlen, poff, replaced, es, lo, hi, mid);
    ghost var filled := r[..];
    UpdateHeader(r, change, newBytes);
    HeaderCompletes(filled, r[..], es[..lo] + mid + es[hi..], |es|, num, change);
  }

  lemma HeaderUntouched(s: Bytes, t: Bytes, p: nat)
    requires HEADER_SIZE <= p <= |s| && Spells(t, 0, s[..p])
    ensures |t| >= HEADER_SIZE && NumElements(t) == NumElements(s)
  {
    assert t[0..p] == s[..p];
    assert forall k :: 0 <= k < p ==> t[k] == t[0..p][k];
  }

  /**
   * lpInsert: insertion before or after an entry, replacement and deletion, all refining the
   * operation on the sequence. Null exactly when the result would pass 2^32-1 bytes.
   */
  method LpInsert(lp: array<Byte>, op: Operand, p: nat, where: Where, ghost es: seq<Bytes>, ghost i: nat)
    returns (r: array?<Byte>, newp: Option<nat>)
    requires Holds(lp[..], es) && ValidOperand(op) && ValidTarget(es, op, where, i) && p == Offset(es, i)
    modifies lp
    ensures r == null <==> NewSize(es, op, where, i) > UINT32_MAX
    ensures r != null ==> |Stored(op)| <= UINT32_MAX && Holds(r[..], Edited(es, op, where, i))
    ensures r != null ==> (if NewSize(es, op, where, i) == Size(es) then r == lp else r.Length == NewSize(es, op, where, i))
    ensures r == null || r == lp || fresh(r)
    ensures r != null ==> NumElements(r[..]) == CountAfter(old(NumElements(lp[..])), CountChange(op, where))
    ensures r != null ==> newp == NewPosition(es, op, where, i)
    // Said once more for the four edits.
    ensures r != null && op == Remove ==>
              Holds(r[..], es[..i] + es[i + 1..]) && newp == if i + 1 == |es| then None else Some(Offset(es, i))
    ensures r != null && op != Remove && where == Before ==>
              Holds(r[..], es[..i] + [Stored(op)] + es[i..]) && newp == Some(Offset(es, i))
    ensures r != null && op != Remove && where == After ==>
              Holds(r[..], es[..i + 1] + [Stored(op)] + es[i + 1..]) && newp == Some(Offset(es, i + 1))
    ensures r != null && op != Remove && where == Replace ==>
              Holds(r[..], es[..i] + [Stored(op)] + es[i + 1..]) && newp == Some(Offset(es, i))
  {
    hide Spells, Body, IsEncoding, Encodes, AllEncodings, Offset, Backlen;
    var isDelete := op == Remove;
    var poff, w, replaced := Locate(lp, isDelete, p, where, es, op, i);
    var payload, enclen := EncodeGetType(op);
    var backlen := new Byte[5](_ => 0);
    var backlenSize := 0;
    if !isDelete { backlenSize := LpEncodeBacklen(backlen, enclen); }
    NewSizeIs(es, op, where, i);
    var newBytes := TotalBytes(lp[..]) + enclen + backlenSize - replaced;
    if newBytes > UINT32_MAX { return null, None; }
    EditedParts(es, op, where, i);
    EditedSize(es, op, where, i);
    var change := if isDelete then -1 else if w == Replace then 0 else 1;
    if !isDelete { StoredIsEncoding(op); }
    r, newp := Rewrite(lp, payload, enclen, backlen[..backlenSize], poff, replaced, newBytes, change, es,
                       Lo(op, where, i), Hi(op, where, i), Added(op));
  }

  lemma NewSizeIs(es: seq<Bytes>, op: Operand, where: Where, i: nat)
    requires ValidTarget(es, op, where, i) && ValidOperand(op)
    ensures Lo(op, where, i) <= Hi(op, where, i) <= |es|
    ensures NewSize(es, op, where, i) > |Stored(op)|
    ensures NewSize(es, op, where, i) == Size(es) + |Stored(op)| + (if op == Remove then 0 else BacklenBytes(|Stored(op)|))
                                         - (Offset(es, Hi(op, where, i)) - Offset(es, Lo(op, where, i)))
  {
    hide Body, Raw, Encoded, EncodedInt;
    if i < |es| { BodySplit(es, i); }
    SplitSize(es, Hi(op, where, i));
  }

  // ----- the wrappers

  /** lpNew: an empty listpack in a buffer of at least `capacity` bytes. */
  method LpNew(capacity: nat) returns (lp: array<Byte>)
    ensures fresh(lp) && Holds(lp[..], []) && NumElements(lp[..]) == 0
    ensures lp.Length == if capacity > HEADER_SIZE + 1 then capacity else HEADER_SIZE + 1
  {
    hide Holds, TotalBytes, NumElements;
    lp := new Byte[if capacity > HEADER_SIZE + 1 then capacity else HEADER_SIZE + 1](_ => 0);
    SetTotalBytes(lp, HEADER_SIZE + 1);
    SetNumElements(lp, 0);
    ghost var s := lp[..];
    lp[HEADER_SIZE] := EOF;
    assert lp[..] == s[HEADER_SIZE := EOF];
    EmptyListpack(s);
  }

  lemma EmptyListpack(s: Bytes)
    requires |s| > HEADER_SIZE && TotalBytes(s) == HEADER_SIZE + 1 && NumElements(s) == 0
    ensures Holds(s[HEADER_SIZE := EOF], []) && NumElements(s[HEADER_SIZE := EOF]) == 0
  {
    assert Body([]) + [EOF] == [EOF];
  }

  lemma FirstEntry(s: Bytes, es: seq<Bytes>)
    requires Holds(s, es)
    ensures First(s) == if es == [] then Null else if IsWide(es[0]) then Abort else At(Offset(es, 0))
  {
    EndMarker(s, es);
    assert Body(es[..0]) == [];
    if es != [] {
      EntryView(s, es, 0);
      StepOverEntry(s, es, 0);
    }
  }

  /** lpAppend. */
  method LpAppend(lp: array<Byte>, ele: Bytes, ghost es: seq<Bytes>) returns (r: array?<Byte>)
    requires Holds(lp[..], es) && |ele| <= UINT32_MAX
    modifies lp
    ensures r == null <==> NewSize(es, Str(ele), Before, |es|) > UINT32_MAX
    ensures r != null ==> (r == lp || fresh(r)) && Holds(r[..], es + [Encoded(ele)])
    ensures r != null ==> NumElements(r[..]) == CountAfter(old(NumElements(lp[..])), 1)
  {
    EndMarker(lp[..], es);
    var newp;
    r, newp := LpInsert(lp, Str(ele), TotalBytes(lp[..]) - 1, Before, es, |es|);
    if r != null { assert Edited(es, Str(ele), Before, |es|) == es + [Encoded(ele)]; }
  }

  /** lpPrepend: asserts that the first entry is valid, so that it must not be a 64-bit integer. */
  method LpPrepend(lp: array<Byte>, s: Bytes, ghost es: seq<Bytes>) returns (r: array?<Byte>)
    requires Holds(lp[..], es) && |s| <= UINT32_MAX && First(lp[..]) != Abort
    modifies lp
    ensures r == null <==> NewSize(es, Str(s), Before, 0) > UINT32_MAX
    ensures r != null ==> (r == lp || fresh(r)) && Holds(r[..], [Encoded(s)] + es)
    ensures r != null ==> NumElements(r[..]) == CountAfter(old(NumElements(lp[..])), 1)
  {
    FirstEntry(lp[..], es);
    var p := First(lp[..]);
    if p == Null {
      r := LpAppend(lp, s, es);
      assert es + [Encoded(s)] == [Encoded(s)] + es;
      return;
    }
    var newp;
    r, newp := LpInsert(lp, Str(s), p.p, Before, es, 0);
    if r != null { assert Edited(es, Str(s), Before, 0) == [Encoded(s)] + es; }
  }

  /** lpDelete: never fails; `newp` is the element to the right. */
  method LpDelete(lp: array<Byte>, p: nat, ghost es: seq<Bytes>, ghost i: nat) returns (r: array<Byte>, newp: Option<nat>)
    requires Holds(lp[..], es) && i < |es| && p == Offset(es, i)
    modifies lp
    ensures (r == lp || fresh(r)) && Holds(r[..], es[..i] + es[i + 1..])
    ensures newp == if i + 1 == |es| then None else Some(Offset(es, i))
    ensures NumElements(r[..]) == CountAfter(old(NumElements(lp[..])), -1)
  {
    BodySplit(es, i);
    var res;
    res, newp := LpInsert(lp, Remove, p, Replace, es, i);
    r := res;
  }
}
