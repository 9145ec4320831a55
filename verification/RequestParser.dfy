/** Parser::Parse and Parser::calculate_length: the next token of a client's read buffer (src/parser/parser.cpp). */
module RequestParser {
  import opened Bytes
  import opened Decimal
  import opened Resp

  datatype TokenType = ArrayToken | BulkToken | UnknownToken

  /** ParsedToken: positions are those of the first and the last byte of the content. */
  datatype ParsedToken = ParsedToken(kind: TokenType, startPos: nat, endPos: nat, length: nat)

  const NO_TOKEN := ParsedToken(UnknownToken, 0, 0, 0)

  /** calculate_length: success, the number modulo 2^64, and the position after it. */
  function Length(buffer: Bytes, pos: nat, length: nat): (r: (bool, nat, nat))
    ensures r.2 >= pos
    decreases |buffer| - pos
  {
    if pos >= |buffer| || buffer[pos] == CR then (true, length, pos + 2)
    else if !IsDigit(buffer[pos]) then (false, length, pos)
    else Length(buffer, pos + 1, (length * 10 + (buffer[pos] - ZERO)) % TWO64)
  }

  /** Parse: the token at a position and the position after it. */
  function Token(buffer: Bytes, pos: nat): (r: (ParsedToken, nat))
    ensures r.1 >= pos
    ensures r.0.kind.BulkToken? ==> pos < |buffer| && r.0.endPos + 1 >= r.0.startPos >= 2
    ensures r.0.kind.ArrayToken? ==> pos < |buffer| && r.1 > pos
  {
    if pos < |buffer| && buffer[pos] == STAR then
      var (ok, length, p) := Length(buffer, pos + 1, 0);
      (if ok then ParsedToken(ArrayToken, 0, 0, length) else NO_TOKEN, p)
    else if pos < |buffer| && buffer[pos] == DOLLAR then
      var (ok, length, p) := Length(buffer, pos + 1, 0);
      if !ok then (NO_TOKEN, p)
      else
        LengthSkips(buffer, pos + 1, 0);
        var e := LineEnd(buffer, p);
        (ParsedToken(BulkToken, p, e - 1, length), e + 2)
    else (NO_TOKEN, pos)
  }

  lemma {:induction false} LengthSkips(buffer: Bytes, pos: nat, length: nat)
    ensures Length(buffer, pos, length).0 ==> Length(buffer, pos, length).2 >= pos + 2
    decreases |buffer| - pos
  {
    if pos < |buffer| && buffer[pos] != CR && IsDigit(buffer[pos]) {
      LengthSkips(buffer, pos + 1, (length * 10 + (buffer[pos] - ZERO)) % TWO64);
    }
  }

  /** The string view on the content of a token, of a buffer that is not empty. */
  function Content(buffer: Bytes, t: ParsedToken): Bytes {
    var end := if t.endPos + 1 <= |buffer| then t.endPos + 1 else |buffer|;
    if t.startPos <= end then buffer[t.startPos..end] else []
  }

  /** The content of the bulk string at a position, if there is one. */
  function Next(buffer: Bytes, pos: nat): (r: (Option<Bytes>, nat))
    ensures r.1 >= pos
  {
    var (t, p) := Token(buffer, pos);
    (if t.kind.BulkToken? then Some(Content(buffer, t)) else None, p)
  }

  class ClientContext {
    var readBuffer: Bytes
    var currentReadPosition: nat
    var commandBytes: nat

    constructor (buffer: Bytes)
      ensures readBuffer == buffer && currentReadPosition == 0
    {
      readBuffer, currentReadPosition, commandBytes := buffer, 0, 0;
    }

    /** calculate_length. */
    method CalculateLength() returns (ok: bool, length: nat)
      modifies this`currentReadPosition
      ensures (ok, length, currentReadPosition) == Length(readBuffer, old(currentReadPosition), 0)
    {
      length := 0;
      while currentReadPosition < |readBuffer| && readBuffer[currentReadPosition] != CR
        invariant Length(readBuffer, currentReadPosition, length) == Length(readBuffer, old(currentReadPosition), 0)
        decreases |readBuffer| - currentReadPosition
      {
        if !IsDigit(readBuffer[currentReadPosition]) { return false, length; }
        length := (length * 10 + (readBuffer[currentReadPosition] - ZERO)) % TWO64;
        currentReadPosition := currentReadPosition + 1;
      }
      currentReadPosition := currentReadPosition + 2;
      ok := true;
    }

    /** Parse. */
    method Parse() returns (t: ParsedToken)
      modifies this`currentReadPosition
      ensures (t, currentReadPosition) == Token(readBuffer, old(currentReadPosition))
    {
      hide Length;
      LengthSkips(readBuffer, currentReadPosition + 1, 0);
      if currentReadPosition < |readBuffer| && readBuffer[currentReadPosition] == STAR {
        currentReadPosition := currentReadPosition + 1;
        var ok, length := CalculateLength();
        if ok { return ParsedToken(ArrayToken, 0, 0, length); }
      } else if currentReadPosition < |readBuffer| && readBuffer[currentReadPosition] == DOLLAR {
        currentReadPosition := currentReadPosition + 1;
        var ok, length := CalculateLength();
        if ok {
          var startPos := currentReadPosition;
          while currentReadPosition < |readBuffer| && readBuffer[currentReadPosition] != CR
            invariant currentReadPosition >= startPos && LineEnd(readBuffer, currentReadPosition) == LineEnd(readBuffer, startPos)
            decreases |readBuffer| - currentReadPosition
          {
            currentReadPosition := currentReadPosition + 1;
          }
          var endPos := currentReadPosition - 1;
          currentReadPosition := currentReadPosition + 2;
          return ParsedToken(BulkToken, startPos, endPos, length);
        }
      }
      return NO_TOKEN;
    }

    /** A token that has to be a bulk string, as every command parser asks for it. */
    method NextString() returns (s: Option<Bytes>)
      modifies this`currentReadPosition
      ensures (s, currentReadPosition) == Next(readBuffer, old(currentReadPosition))
    {
      var t := Parse();
      return if t.kind == BulkToken then Some(Content(readBuffer, t)) else None;
    }
  }

  // ----- printed requests

  /** Texts without a carriage return, which are the ones that Parse can delimit. */
  ghost predicate Plain(items: seq<Bytes>) { forall i :: 0 <= i < |items| ==> CR !in items[i] }

  lemma {:induction false} LengthOfNumber(buffer: Bytes, pos: nat, d: Bytes, k: nat)
    requires AllDigits(d) && k <= |d| && Reads(buffer, pos, d) && CrlfAt(buffer, pos + |d|)
    ensures Length(buffer, pos + k, Value(d[..k]) % TWO64) == (true, Value(d) % TWO64, pos + |d| + 2)
    decreases |d| - k
  {
    if k == |d| {
      assert d[..k] == d;
    } else {
      assert buffer[pos + k] == d[k];
      assert d[..k + 1][..k] == d[..k];
      WrapStep(Value(d[..k]), d[k] - ZERO);
      LengthOfNumber(buffer, pos, d, k + 1);
    }
  }

  lemma PrintedLength(buffer: Bytes, pos: nat, n: nat)
    requires Reads(buffer, pos, Print(n)) && CrlfAt(buffer, pos + |Print(n)|)
    ensures Length(buffer, pos, 0) == (true, n % TWO64, pos + |Print(n)| + 2)
  {
    PrintIsCanonical(n);
    hide Print;
    assert Print(n)[..0] == [] && Value([]) == 0;
    LengthOfNumber(buffer, pos, Print(n), 0);
  }

  /** A printed array header is read as its length. */
  lemma TokenOfHeader(buffer: Bytes, pos: nat, n: nat)
    requires Reads(buffer, pos, ArrayHeader(n))
    ensures Token(buffer, pos) == (ParsedToken(ArrayToken, 0, 0, n % TWO64), pos + |ArrayHeader(n)|)
  {
    hide Print, Length;
    var d := Print(n);
    assert ArrayHeader(n) == [STAR] + (d + CRLF);
    ReadsParts(buffer, pos, [STAR], d + CRLF);
    ReadsParts(buffer, pos + 1, d, CRLF);
    assert [STAR][0] == STAR && CRLF[0] == CR && CRLF[1] == LF;
    PrintedLength(buffer, pos + 1, n);
  }

  /** A printed bulk string without carriage return is read back as its content. */
  lemma NextOfBulk(buffer: Bytes, pos: nat, s: Bytes)
    requires Reads(buffer, pos, Bulk(s)) && CR !in s
    ensures Next(buffer, pos) == (Some(s), pos + |Bulk(s)|)
  {
    hide Print, Length;
    ReadsBulk(buffer, pos, s);
    PrintedLength(buffer, pos + 1, |s|);
    var start := pos + 3 + |Print(|s|)|;
    ReadsSlice(buffer, start, s);
    forall i | start <= i < start + |s| ensures buffer[i] != CR { assert buffer[start + (i - start)] == s[i - start]; }
    assert LineEnd(buffer, start) == start + |s|;
  }

  lemma {:induction false} LineEndIs(buffer: Bytes, pos: nat, end: nat)
    requires pos <= end < |buffer| && buffer[end] == CR && forall i :: pos <= i < end ==> buffer[i] != CR
    ensures LineEnd(buffer, pos) == end
    decreases end - pos
  {
    if pos < end { LineEndIs(buffer, pos + 1, end); }
  }

  /** A printed bulk string with a carriage return is cut off there, and reading goes on in the middle of it. */
  lemma NextIsCut(buffer: Bytes, pos: nat, s: Bytes, i: nat)
    requires Reads(buffer, pos, Bulk(s)) && i < |s| && s[i] == CR && CR !in s[..i]
    ensures Next(buffer, pos) == (Some(s[..i]), pos + |Bulk(s)| - |s| + i)
  {
    hide Print, Length;
    ReadsBulk(buffer, pos, s);
    PrintedLength(buffer, pos + 1, |s|);
    var start := pos + 3 + |Print(|s|)|;
    ReadsSlice(buffer, start, s);
    assert buffer[start..start + i] == buffer[start..start + |s|][..i] == s[..i];
    forall j | start <= j < start + i ensures buffer[j] != CR { assert buffer[start + (j - start)] == s[..i][j - start]; }
    assert buffer[start + i] == s[i];
    LineEndIs(buffer, start, start + i);
  }

  lemma {:induction false} FirstReturn(s: Bytes) returns (i: nat)
    requires CR in s
    ensures i < |s| && s[i] == CR && CR !in s[..i]
  {
    i := 0;
    while s[i] != CR
      invariant i < |s| && CR !in s[..i] && CR in s[i..]
      decreases |s| - i
    {
      assert s[i..] == [s[i]] + s[i + 1..] && s[..i + 1] == s[..i] + [s[i]];
      i := i + 1;
    }
  }

  /** A printed bulk string is read back as its content exactly when that has no carriage return. */
  lemma NextIsContentIffPlain(buffer: Bytes, pos: nat, s: Bytes)
    requires Reads(buffer, pos, Bulk(s))
    ensures Next(buffer, pos).0.Some?
    ensures Next(buffer, pos).0 == Some(s) <==> CR !in s
  {
    hide Next;
    if CR !in s {
      NextOfBulk(buffer, pos, s);
    } else {
      var i := FirstReturn(s);
      NextIsCut(buffer, pos, s, i);
      assert |s[..i]| < |s|;
    }
  }
}
