/**
 * The replies of the server as a client reads them: the Redis serialization protocol, with the
 * length of a bulk string and the number of elements of an array taken at their word.
 */
module Replies {
  import opened Bytes
  import opened Decimal
  import opened Resp

  datatype Reply = Text(s: Bytes) | NoText | Items(items: seq<Reply>) | NoItems | Number(v: int) | Failure(message: Bytes)

  // ----- reading

  /** A line and the position behind its end. */
  function ReadLine(s: Bytes, pos: nat): (r: Option<(Bytes, nat)>)
    ensures r.Some? ==> pos < r.value.1 <= |s|
  {
    var e: nat := LineEnd(s, pos); if pos <= |s| && CrlfAt(s, e) then Some((s[pos..e], e + 2)) else None
  }

  function ReadNumber(line: Bytes): Option<int> {
    if line == [] then None
    else if AllDigits(line) then Some(Value(line))
    else if line[0] == MINUS && |line| > 1 && AllDigits(line[1..]) then var n: int := Value(line[1..]); Some(-n)
    else None
  }

  function ReadReply(s: Bytes, pos: nat): (r: Option<(Reply, nat)>)
    ensures r.Some? ==> pos < r.value.1 <= |s|
    decreases |s| - pos, 0
  {
    if pos >= |s| || ReadLine(s, pos + 1).None? then None
    else
      var (line, next) := ReadLine(s, pos + 1).value;
      var n := ReadNumber(line);
      if s[pos] == MINUS then Some((Failure(line), next))
      else if n.None? then None
      else if s[pos] == COLON then Some((Number(n.value), next))
      else if s[pos] == DOLLAR then
        if n.value == -1 then Some((NoText, next))
        else if n.value >= 0 && CrlfAt(s, next + n.value) then Some((Text(s[next..next + n.value]), next + n.value + 2))
        else None
      else if s[pos] == STAR then
        if n.value == -1 then Some((NoItems, next))
        else if n.value < 0 then None
        else
          match ReadReplies(s, next, n.value)
          case None => None
          case Some((items, end)) => Some((Items(items), end))
      else None
  }

  /** So many replies, one after the other. */
  function ReadReplies(s: Bytes, pos: nat, n: nat): (r: Option<(seq<Reply>, nat)>)
    requires pos <= |s|
    ensures r.Some? ==> pos <= r.value.1 <= |s| && |r.value.0| == n
    decreases |s| - pos, 1
  {
    if n == 0 then Some(([], pos))
    else
      match ReadReply(s, pos)
      case None => None
      case Some((reply, p)) =>
        match ReadReplies(s, p, n - 1)
        case None => None
        case Some((rest, end)) => Some(([reply] + rest, end))
  }

  /** `text` is one reply, wherever it stands and whatever follows it. */
  ghost predicate IsRead(text: Bytes, reply: Reply) {
    forall buffer: Bytes, pos: nat {:trigger Reads(buffer, pos, text)} ::
      Reads(buffer, pos, text) ==> ReadReply(buffer, pos) == Some((reply, pos + |text|))
  }

  /** `text` is a number of replies. */
  ghost predicate AreRead(text: Bytes, replies: seq<Reply>) {
    forall buffer: Bytes, pos: nat {:trigger Reads(buffer, pos, text)} ::
      Reads(buffer, pos, text) ==> ReadReplies(buffer, pos, |replies|) == Some((replies, pos + |text|))
  }

  /** Then it is read back on its own. */
  lemma IsReadAlone(text: Bytes, reply: Reply)
    requires IsRead(text, reply)
    ensures ReadReply(text, 0) == Some((reply, |text|))
  {
    assert Reads(text, 0, text);
  }

  // ----- the encoders

  lemma LineIsRead(buffer: Bytes, pos: nat, line: Bytes)
    requires Reads(buffer, pos, line + CRLF) && CR !in line
    ensures ReadLine(buffer, pos) == Some((line, pos + |line| + 2))
  {
    ReadsParts(buffer, pos, line, CRLF);
    assert CRLF[0] == CR && CRLF[1] == LF;
    assert buffer[pos + |line| + 0] == CR && buffer[pos + |line| + 1] == LF;
    ReadsSlice(buffer, pos, line);
    forall i | pos <= i < pos + |line| ensures buffer[i] != CR { assert buffer[pos + (i - pos)] == line[i - pos]; }
    LineEndAt(buffer, pos, pos + |line|);
  }

  lemma {:induction false} LineEndAt(buffer: Bytes, pos: nat, end: nat)
    requires pos <= end < |buffer| && buffer[end] == CR && forall i :: pos <= i < end ==> buffer[i] != CR
    ensures LineEnd(buffer, pos) == end
    decreases end - pos
  {
    if pos < end { LineEndAt(buffer, pos + 1, end); }
  }

  lemma NumberIsRead(v: int)
    ensures ReadNumber(PrintInt(v)) == Some(v) && CR !in PrintInt(v)
  {
    PrintIsCanonical(if v < 0 then -v else v);
    hide Print, Value;
    if v < 0 { assert PrintInt(v)[1..] == Print(-v); }
  }

  /** A tag, a number and a line end. */
  lemma TaggedLine(buffer: Bytes, pos: nat, tag: Byte, v: int, rest: Bytes)
    requires Reads(buffer, pos, [tag] + PrintInt(v) + CRLF + rest)
    ensures pos < |buffer| && buffer[pos] == tag
    ensures ReadLine(buffer, pos + 1) == Some((PrintInt(v), pos + 3 + |PrintInt(v)|))
    ensures Reads(buffer, pos + 3 + |PrintInt(v)|, rest)
  {
    NumberIsRead(v);
    hide PrintInt, ReadLine;
    var d := PrintInt(v);
    assert [tag] + d + CRLF + rest == [tag] + ((d + CRLF) + rest);
    ReadsParts(buffer, pos, [tag], (d + CRLF) + rest);
    ReadsParts(buffer, pos + 1, d + CRLF, rest);
    LineIsRead(buffer, pos + 1, d);
    assert buffer[pos + 0] == [tag][0];
  }

  lemma TextIsRead(s: Bytes)
    ensures IsRead(Bulk(s), Text(s))
  {
    var len: int := |s|;
    forall buffer: Bytes, pos: nat | Reads(buffer, pos, Bulk(s)) ensures ReadReply(buffer, pos) == Some((Text(s), pos + |Bulk(s)|)) {
      assert Bulk(s) == [DOLLAR] + PrintInt(len) + CRLF + (s + CRLF);
      TaggedLine(buffer, pos, DOLLAR, len, s + CRLF);
      NumberIsRead(len);
      hide PrintInt, ReadLine, Print, ReadNumber;
      var next := pos + 3 + |PrintInt(len)|;
      ReadsParts(buffer, next, s, CRLF);
      ReadsSlice(buffer, next, s);
      assert CRLF[0] == CR && CRLF[1] == LF;
      assert buffer[next + |s| + 0] == CR && buffer[next + |s| + 1] == LF;
    }
  }

  lemma IntegerIsRead(v: int)
    ensures IsRead(Integer(v), Number(v))
  {
    hide PrintInt, ReadLine, ReadNumber;
    assert Integer(v) == [COLON] + PrintInt(v) + CRLF + [];
    NumberIsRead(v);
    forall buffer: Bytes, pos: nat | Reads(buffer, pos, Integer(v)) ensures ReadReply(buffer, pos) == Some((Number(v), pos + |Integer(v)|)) {
      TaggedLine(buffer, pos, COLON, v, []);
      hide Reads;
    }
  }

  /** The null bulk string and the null array say so. */
  lemma NullsAreRead()
    ensures IsRead(NULL_BULK, NoText) && IsRead(NULL_ARRAY, NoItems)
  {
    assert PrintInt(-1) == [MINUS] + Print(1) && Print(1) == [49];
    NumberIsRead(-1);
    forall buffer: Bytes, pos: nat | Reads(buffer, pos, NULL_BULK) ensures ReadReply(buffer, pos) == Some((NoText, pos + 5)) {
      assert NULL_BULK == [DOLLAR] + PrintInt(-1) + CRLF + [];
      TaggedLine(buffer, pos, DOLLAR, -1, []);
    }
    forall buffer: Bytes, pos: nat | Reads(buffer, pos, NULL_ARRAY) ensures ReadReply(buffer, pos) == Some((NoItems, pos + 5)) {
      assert NULL_ARRAY == [STAR] + PrintInt(-1) + CRLF + [];
      TaggedLine(buffer, pos, STAR, -1, []);
    }
  }

  /** An error is read as its line. */
  lemma ErrorIsRead(message: string)
    requires CR !in Ascii(message)
    ensures IsRead(Error(message), Failure(Ascii("ERR ") + Ascii(message)))
  {
    var line := Ascii("ERR ") + Ascii(message);
    var tagged := Ascii("-ERR ");
    assert tagged == [MINUS] + Ascii("ERR ");
    assert CR !in Ascii("ERR ");
    hide Ascii, ReadLine;
    forall buffer: Bytes, pos: nat | Reads(buffer, pos, Error(message))
      ensures ReadReply(buffer, pos) == Some((Failure(line), pos + |Error(message)|))
    {
      assert Error(message) == [MINUS] + (line + CRLF);
      ReadsParts(buffer, pos, [MINUS], line + CRLF);
      LineIsRead(buffer, pos + 1, line);
      assert buffer[pos + 0] == [MINUS][0];
    }
  }

  /** An array header and the replies that it announces. */
  lemma ArrayIsRead(text: Bytes, replies: seq<Reply>)
    requires AreRead(text, replies)
    ensures IsRead(ArrayHeader(|replies|) + text, Items(replies))
  {
    var n: int := |replies|;
    forall buffer: Bytes, pos: nat | Reads(buffer, pos, ArrayHeader(|replies|) + text)
      ensures ReadReply(buffer, pos) == Some((Items(replies), pos + |ArrayHeader(|replies|) + text|))
    {
      assert ArrayHeader(|replies|) + text == [STAR] + PrintInt(n) + CRLF + text;
      TaggedLine(buffer, pos, STAR, n, text);
      NumberIsRead(n);
      hide PrintInt, ReadLine, Print, ReadNumber;
    }
  }

  lemma NothingIsRead()
    ensures AreRead([], [])
  {}

  lemma OneMoreIsRead(text: Bytes, reply: Reply, rest: Bytes, replies: seq<Reply>)
    requires IsRead(text, reply) && AreRead(rest, replies)
    ensures AreRead(text + rest, [reply] + replies)
  {
    forall buffer: Bytes, pos: nat | Reads(buffer, pos, text + rest)
      ensures ReadReplies(buffer, pos, |[reply] + replies|) == Some(([reply] + replies, pos + |text + rest|))
    {
      ReadsParts(buffer, pos, text, rest);
      hide ReadReply;
    }
  }

  lemma {:induction false} MoreAreRead(a: Bytes, xs: seq<Reply>, b: Bytes, ys: seq<Reply>)
    requires AreRead(a, xs) && AreRead(b, ys)
    ensures AreRead(a + b, xs + ys)
  {
    hide ReadReplies;
    forall buffer: Bytes, pos: nat | Reads(buffer, pos, a + b)
      ensures ReadReplies(buffer, pos, |xs + ys|) == Some((xs + ys, pos + |a + b|))
    {
      ReadsParts(buffer, pos, a, b);
      ReadsOn(buffer, pos, xs, pos + |a|, ys, pos + |a| + |b|);
    }
  }

  lemma {:induction false} ReadsOn(s: Bytes, pos: nat, xs: seq<Reply>, mid: nat, ys: seq<Reply>, end: nat)
    requires pos <= |s| && mid <= |s| && ReadReplies(s, pos, |xs|) == Some((xs, mid)) && ReadReplies(s, mid, |ys|) == Some((ys, end))
    ensures ReadReplies(s, pos, |xs| + |ys|) == Some((xs + ys, end))
    decreases |xs|
  {
    hide ReadReply;
    if xs == [] {
      assert xs + ys == ys;
    } else {
      var p := ReadReply(s, pos).value.1;
      assert ReadReplies(s, p, |xs| - 1).value.0 == xs[1..];
      ReadsOn(s, p, xs[1..], mid, ys, end);
      assert [xs[0]] + (xs[1..] + ys) == xs + ys;
    }
  }

  function Texts(items: seq<Bytes>): (r: seq<Reply>)
    ensures |r| == |items|
  { seq(|items|, i requires 0 <= i < |items| => Text(items[i])) }

  lemma {:induction false} BulksAreRead(items: seq<Bytes>)
    ensures AreRead(Bulks(items), Texts(items))
  {
    hide Bulk, IsRead, AreRead;
    if items == [] {
      NothingIsRead();
    } else {
      TextIsRead(items[0]);
      BulksAreRead(items[1..]);
      OneMoreIsRead(Bulk(items[0]), Text(items[0]), Bulks(items[1..]), Texts(items[1..]));
      assert Texts(items) == [Text(items[0])] + Texts(items[1..]);
    }
  }

  /** encode_bulk_string_array is read as its strings, in order, and encode_empty_array as no string. */
  lemma BulkArrayIsRead(items: seq<Bytes>)
    ensures IsRead(BulkArray(items), Items(Texts(items))) && IsRead(EMPTY_ARRAY, Items([]))
  {
    hide IsRead, AreRead;
    BulksAreRead(items);
    ArrayIsRead(Bulks(items), Texts(items));
    BulksAreRead([]);
    ArrayIsRead(Bulks([]), []);
    assert Texts([]) == [];
    EmptyIsBulkArray();
  }
}
