/** The RESP encoders of utils.h, their reader parse_bulk_string_sequence, and is_equal. */
module Resp {
  import opened Bytes
  import opened Decimal

  const CR: Byte := 13
  const LF: Byte := 10
  const COLON: Byte := 58
  const CRLF: Bytes := [CR, LF]

  /** The bytes of a text. */
  function Ascii(s: string): (r: Bytes)
    ensures |r| == |s|
  { seq(|s|, i requires 0 <= i < |s| => s[i] as int % 0x100) }

  // ----- encoders

  /** encode_bulk_string. */
  function Bulk(s: Bytes): Bytes { [DOLLAR] + Print(|s|) + CRLF + s + CRLF }

  /** encode_array_header. */
  function ArrayHeader(n: nat): Bytes { [STAR] + Print(n) + CRLF }

  /** encode_error. */
  function Error(message: string): Bytes { Ascii("-ERR ") + Ascii(message) + CRLF }

  /** encode_integer. */
  function Integer(v: int): Bytes { [COLON] + PrintInt(v) + CRLF }

  /** encode_empty_array, encode_null_array and encode_null_bulk_string. */
  const EMPTY_ARRAY: Bytes := [STAR, ZERO, CR, LF]
  const NULL_ARRAY: Bytes := [STAR, MINUS, 49, CR, LF]
  const NULL_BULK: Bytes := [DOLLAR, MINUS, 49, CR, LF]

  function Bulks(items: seq<Bytes>): Bytes { if items == [] then [] else Bulk(items[0]) + Bulks(items[1..]) }

  /** encode_bulk_string_array. */
  function BulkArray(items: seq<Bytes>): Bytes { ArrayHeader(|items|) + Bulks(items) }

  lemma EmptyIsBulkArray()
    ensures BulkArray([]) == EMPTY_ARRAY
  {}

  lemma {:induction false} BulksConcat(a: seq<Bytes>, b: seq<Bytes>)
    ensures Bulks(a + b) == Bulks(a) + Bulks(b)
  {
    hide Bulk;
    if a == [] {
      assert a + b == b;
    } else {
      assert (a + b)[1..] == a[1..] + b;
      BulksConcat(a[1..], b);
    }
  }

  // ----- is_equal

  /** tolower. */
  function Lower(b: Byte): Byte { if 65 <= b <= 90 then b + 32 else b }

  predicate EqualFold(a: Bytes, b: Bytes) {
    |a| == |b| && forall i :: 0 <= i < |a| ==> Lower(a[i]) == Lower(b[i])
  }

  /** The texts agree but for the case of letters: at each position the bytes are equal, or a capital and its small letter. */
  predicate Recased(s: Bytes, t: Bytes) {
    && |s| == |t|
    && forall i :: 0 <= i < |s| ==> s[i] == t[i] || (65 <= s[i] <= 90 && t[i] == s[i] + 32) || (65 <= t[i] <= 90 && s[i] == t[i] + 32)
  }

  lemma FoldIsRecased(s: Bytes, t: Bytes)
    ensures EqualFold(s, t) <==> Recased(s, t)
  {
    if EqualFold(s, t) {
      forall i | 0 <= i < |s| ensures s[i] == t[i] || (65 <= s[i] <= 90 && t[i] == s[i] + 32) || (65 <= t[i] <= 90 && s[i] == t[i] + 32) {
        assert Lower(s[i]) == Lower(t[i]);
      }
    }
  }

  /** is_equal: equality up to the case of ASCII letters. */
  method IsEqual(s1: Bytes, s2: Bytes) returns (equal: bool)
    ensures equal <==>
              && |s1| == |s2|
              && forall i :: 0 <= i < |s1| ==>
                   s1[i] == s2[i] || (65 <= s1[i] <= 90 && s2[i] == s1[i] + 32) || (65 <= s2[i] <= 90 && s1[i] == s2[i] + 32)
    ensures equal == EqualFold(s1, s2)
  {
    FoldIsRecased(s1, s2);
    if |s1| != |s2| { return false; }
    for i := 0 to |s1|
      invariant forall j :: 0 <= j < i ==> Lower(s1[j]) == Lower(s2[j])
    {
      if Lower(s1[i]) != Lower(s2[i]) { return false; }
    }
    return true;
  }

  // ----- parse_bulk_string_sequence

  /** The first carriage return from `pos` on, or the end of the text. */
  function LineEnd(s: Bytes, pos: nat): (e: nat)
    ensures e >= pos && (pos <= |s| ==> e <= |s|)
    ensures e < |s| ==> s[e] == CR
    ensures forall i :: pos <= i < e && i < |s| ==> s[i] != CR
    decreases |s| - pos
  {
    if pos >= |s| || s[pos] == CR then pos else LineEnd(s, pos + 1)
  }

  /** The first byte from `pos` on that is neither a carriage return nor a line feed. */
  function SkipCrlf(s: Bytes, pos: nat): (e: nat)
    requires pos <= |s|
    ensures pos <= e <= |s|
    decreases |s| - pos
  {
    if pos < |s| && (s[pos] == CR || s[pos] == LF) then SkipCrlf(s, pos + 1) else pos
  }

  predicate CrlfAt(s: Bytes, pos: nat) { pos + 1 < |s| && s[pos] == CR && s[pos + 1] == LF }

  /** Where the content of the bulk string whose dollar sign is at `pos` starts, and its length. */
  function Announced(s: Bytes, pos: nat): (r: Option<(nat, nat)>)
    requires pos < |s|
    ensures r.Some? ==> pos < r.value.0 && r.value.0 <= |s|
  {
    var e := LineEnd(s, pos + 1);
    if s[pos] == DOLLAR && pos + 1 < e && AllDigits(s[pos + 1..e]) && CrlfAt(s, e)
    then Some((e + 2, Value(s[pos + 1..e]) % TWO64)) else None
  }

  /** What parse_bulk_string_sequence returns from `pos` on, and the strings it has found. */
  function Sequence(s: Bytes, pos: nat): (bool, seq<Bytes>)
    requires pos <= |s|
    decreases |s| - pos
  {
    var p := SkipCrlf(s, pos);
    if p >= |s| then (true, [])
    else
      match Announced(s, p)
      case None => (false, [])
      case Some((start, length)) =>
        if start + length > |s| then (false, [])
        else if !CrlfAt(s, start + length) then (false, [s[start..start + length]])
        else
          var rest := Sequence(s, start + length + 2);
          (rest.0, [s[start..start + length]] + rest.1)
  }

  lemma EmptyValue(s: Bytes)
    requires s == []
    ensures Value(s) == 0
  {}

  lemma OneMoreDigit(s: Bytes, i: nat, j: nat)
    requires i <= j < |s| && AllDigits(s[i..j]) && IsDigit(s[j])
    ensures AllDigits(s[i..j + 1]) && Value(s[i..j + 1]) == Value(s[i..j]) * 10 + (s[j] - ZERO)
  {
    assert s[i..j + 1] == s[i..j] + [s[j]];
    assert s[i..j + 1][..j - i] == s[i..j];
  }

  /** The part of parse_bulk_string_sequence that reads a dollar sign and a length. */
  method ReadAnnounced(raw: Bytes, p: nat) returns (r: Option<(nat, nat)>)
    requires p < |raw|
    ensures r == Announced(raw, p)
  {
    hide Value;
    if raw[p] != DOLLAR { return None; }
    var pos := p + 1;
    EmptyValue(raw[pos..pos]);
    ghost var e := LineEnd(raw, pos);
    assert pos < e <= |raw| ==> raw[pos..e][0] == raw[pos];
    if pos >= |raw| || !IsDigit(raw[pos]) { return None; }
    var length: nat := 0;
    while pos < |raw| && raw[pos] != CR
      invariant p + 1 <= pos <= e == LineEnd(raw, pos)
      invariant AllDigits(raw[p + 1..pos]) && length == Value(raw[p + 1..pos]) % TWO64
      invariant pos == p + 1 ==> raw[pos] != CR
    {
      if !IsDigit(raw[pos]) {
        assert raw[p + 1..e][pos - (p + 1)] == raw[pos];
        return None;
      }
      assert LineEnd(raw, pos) == LineEnd(raw, pos + 1);
      OneMoreDigit(raw, p + 1, pos);
      WrapStep(Value(raw[p + 1..pos]), raw[pos] - ZERO);
      length := (length * 10 + (raw[pos] - ZERO)) % TWO64;
      pos := pos + 1;
    }
    if pos + 1 >= |raw| || raw[pos] != CR || raw[pos + 1] != LF { return None; }
    return Some((pos + 2, length));
  }

  /** The loop that skips stray line ends. */
  method SkipLineEnds(raw: Bytes, start: nat) returns (pos: nat)
    requires start <= |raw|
    ensures pos == SkipCrlf(raw, start)
  {
    pos := start;
    while pos < |raw| && (raw[pos] == CR || raw[pos] == LF)
      invariant start <= pos <= |raw| && SkipCrlf(raw, start) == SkipCrlf(raw, pos)
    {
      pos := pos + 1;
    }
  }

  /** The cases of a round, as they extend what has been found before. */
  lemma OneRound(raw: Bytes, pos: nat, out: seq<Bytes>)
    requires pos <= |raw|
    ensures var p, s := SkipCrlf(raw, pos), Sequence(raw, pos);
            if p >= |raw| then s.0 && out + s.1 == out
            else
              match Announced(raw, p)
              case None => !s.0 && out + s.1 == out
              case Some((start, length)) =>
                if start + length > |raw| then !s.0 && out + s.1 == out
                else
                  var more := out + [raw[start..start + length]];
                  if !CrlfAt(raw, start + length) then !s.0 && out + s.1 == more
                  else
                    var rest := Sequence(raw, start + length + 2);
                    s.0 == rest.0 && out + s.1 == more + rest.1
  {
    hide Announced, SkipCrlf;
    assert out + [] == out;
  }

  /** parse_bulk_string_sequence. */
  method ParseBulkStringSequence(raw: Bytes) returns (ok: bool, out: seq<Bytes>)
    ensures (ok, out) == Sequence(raw, 0)
  {
    hide Announced, SkipCrlf, Sequence;
    var pos := 0;
    ok, out := true, [];
    assert out + Sequence(raw, 0).1 == Sequence(raw, 0).1;
    while pos < |raw|
      invariant 0 <= pos <= |raw| && ok
      invariant Sequence(raw, 0).0 == Sequence(raw, pos).0 && Sequence(raw, 0).1 == out + Sequence(raw, pos).1
      decreases |raw| - pos
    {
      OneRound(raw, pos, out);
      pos := SkipLineEnds(raw, pos);
      if pos >= |raw| { return; }
      var announced := ReadAnnounced(raw, pos);
      if announced == None { return false, out; }
      var (start, length) := announced.value;
      if start + length > |raw| { return false, out; }
      out := out + [raw[start..start + length]];
      pos := start + length;
      if pos + 1 >= |raw| || raw[pos] != CR || raw[pos + 1] != LF { return false, out; }
      pos := pos + 2;
    }
    OneRound(raw, |raw|, out);
  }

  // ----- texts at a position of a buffer

  /** `s` stands in `buffer` at `pos`. */
  ghost predicate Reads(buffer: Bytes, pos: nat, s: Bytes) {
    pos + |s| <= |buffer| && forall i {:trigger s[i]} :: 0 <= i < |s| ==> buffer[pos + i] == s[i]
  }

  lemma ReadsParts(buffer: Bytes, pos: nat, a: Bytes, b: Bytes)
    ensures Reads(buffer, pos, a + b) <==> Reads(buffer, pos, a) && Reads(buffer, pos + |a|, b)
  {
    if Reads(buffer, pos, a + b) {
      assert forall i :: 0 <= i < |a| ==> a[i] == (a + b)[i];
      assert forall i :: 0 <= i < |b| ==> b[i] == (a + b)[|a| + i];
    }
  }

  lemma ReadsSlice(buffer: Bytes, pos: nat, s: Bytes)
    requires Reads(buffer, pos, s)
    ensures buffer[pos..pos + |s|] == s
  {}

  /** A bulk string taken apart: the dollar sign, the length, and the content between two line ends. */
  lemma ReadsBulk(buffer: Bytes, pos: nat, s: Bytes)
    requires Reads(buffer, pos, Bulk(s))
    ensures var n := pos + 1 + |Print(|s|)|;
            && buffer[pos] == DOLLAR && Reads(buffer, pos + 1, Print(|s|)) && CrlfAt(buffer, n)
            && Reads(buffer, n + 2, s) && CrlfAt(buffer, n + 2 + |s|) && |Bulk(s)| == |Print(|s|)| + |s| + 5
  {
    hide Print;
    var d := Print(|s|);
    assert Bulk(s) == [DOLLAR] + (d + (CRLF + (s + CRLF)));
    ReadsParts(buffer, pos, [DOLLAR], d + (CRLF + (s + CRLF)));
    ReadsParts(buffer, pos + 1, d, CRLF + (s + CRLF));
    ReadsParts(buffer, pos + 1 + |d|, CRLF, s + CRLF);
    ReadsParts(buffer, pos + 3 + |d|, s, CRLF);
    assert [DOLLAR][0] == DOLLAR && CRLF[0] == CR && CRLF[1] == LF;
  }

  /** The line of a printed number ends where its digits end. */
  lemma LineOfNumber(buffer: Bytes, pos: nat, n: nat)
    requires Reads(buffer, pos, Print(n)) && CrlfAt(buffer, pos + |Print(n)|)
    ensures LineEnd(buffer, pos) == pos + |Print(n)| && buffer[pos..pos + |Print(n)|] == Print(n)
    ensures AllDigits(Print(n)) && |Print(n)| > 0 && Value(Print(n)) == n
  {
    PrintIsCanonical(n);
    var d, e := Print(n), LineEnd(buffer, pos);
    hide Print, Value;
    forall i | pos <= i < pos + |d| ensures buffer[i] != CR { assert buffer[pos + (i - pos)] == d[i - pos]; }
  }

  /** What stands between the dollar sign and the content of a bulk string announces the content. */
  lemma AnnouncedOfBulk(buffer: Bytes, pos: nat, s: Bytes)
    requires |buffer| <= UINT64_MAX && Reads(buffer, pos, Bulk(s))
    ensures pos < |buffer| && buffer[pos] == DOLLAR
    ensures var start := pos + |Bulk(s)| - |s| - 2;
            && Announced(buffer, pos) == Some((start, |s|)) && start + |s| + 2 == pos + |Bulk(s)| <= |buffer|
            && buffer[start..start + |s|] == s && CrlfAt(buffer, start + |s|)
  {
    hide Print, Value, LineEnd;
    ReadsBulk(buffer, pos, s);
    LineOfNumber(buffer, pos + 1, |s|);
    ReadsSlice(buffer, pos + |Print(|s|)| + 3, s);
  }

  /** A sequence of bulk strings parses to its strings, whatever bytes they hold. */
  lemma {:induction false} SequenceOfBulks(buffer: Bytes, pos: nat, items: seq<Bytes>)
    requires |buffer| <= UINT64_MAX
    requires Reads(buffer, pos, Bulks(items)) && pos + |Bulks(items)| == |buffer|
    ensures Sequence(buffer, pos) == (true, items)
    decreases |items|
  {
    hide Bulk, Announced, Reads;
    assert pos <= |buffer|;
    if items != [] {
      var s := items[0];
      ReadsParts(buffer, pos, Bulk(s), Bulks(items[1..]));
      AnnouncedOfBulk(buffer, pos, s);
      SequenceOfBulks(buffer, pos + |Bulk(s)|, items[1..]);
      assert items == [s] + items[1..];
    }
  }
}
