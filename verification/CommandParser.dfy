/**
 * The commands that travel between master and replica: how they are printed (src/parser/command.h),
 * how they are parsed (src/parser/command-parser.cpp), and that the second undoes the first.
 */
module CommandParser {
  import opened Bytes
  import opened Decimal
  import opened Resp
  import opened RequestParser

  datatype ReplConfType = ListeningPort | Capa | GetAck | Ack

  /** Unknown is the parser's UnknowCommand; Elsewhere is a command of a parser that is not part of this model. */
  datatype Command =
    | Set(key: Bytes, value: Bytes, ex: Option<nat>, px: Option<nat>)
    | Incr(key: Bytes)
    | Rpush(key: Bytes, values: seq<Bytes>)
    | Lpush(key: Bytes, values: seq<Bytes>)
    | Lpop(key: Bytes, count: Option<nat>)
    | Xadd(key: Bytes, streamId: Bytes, fields: seq<(Bytes, Bytes)>)
    | Zrem(key: Bytes, members: seq<Bytes>)
    | ReplConf(subcommand: ReplConfType, listeningPort: Bytes, capability: Bytes, ackOffset: int)
    | Unknown
    | Elsewhere(name: Bytes)
  {
    predicate IsWrite() { !ReplConf? && !Unknown? && !Elsewhere? }
  }

  const SET := Ascii("SET")
  const INCR := Ascii("INCR")
  const RPUSH := Ascii("RPUSH")
  const LPUSH := Ascii("LPUSH")
  const LPOP := Ascii("LPOP")
  const XADD := Ascii("XADD")
  const ZREM := Ascii("ZREM")
  const REPLCONF := Ascii("REPLCONF")
  const GETACK := Ascii("GETACK")
  const ACK := Ascii("ACK")
  const EX := Ascii("EX")
  const PX := Ascii("PX")

  const GET_ACK_COMMAND := ReplConf(GetAck, [], [], 0)

  // ----- printing

  function Request(args: seq<Bytes>): Bytes { ArrayHeader(|args|) + Bulks(args) }

  function PairArgs(fields: seq<(Bytes, Bytes)>): seq<Bytes> {
    if fields == [] then [] else [fields[0].0, fields[0].1] + PairArgs(fields[1..])
  }

  function Flag(name: Bytes, n: Option<nat>): seq<Bytes> { if n.Some? then [name, Print(n.value)] else [] }

  /** The words of a command. */
  function Args(c: Command): seq<Bytes>
    requires c.IsWrite()
  {
    match c
    case Set(key, value, ex, px) => [SET, key, value] + Flag(EX, ex) + Flag(PX, px)
    case Incr(key) => [INCR, key]
    case Rpush(key, values) => [RPUSH, key] + values
    case Lpush(key, values) => [LPUSH, key] + values
    case Lpop(key, count) => [LPOP, key] + if count.Some? then [Print(count.value)] else []
    case Xadd(key, streamId, fields) => [XADD, key, streamId] + PairArgs(fields)
    case Zrem(key, members) => [ZREM, key] + members
  }

  // ----- parsing

  /** The conversion of the number of remaining arguments to int: 32 bits, two's complement. */
  function ToInt32(n: int): int {
    var m := n % 0x1_0000_0000; if m < 0x8000_0000 then m else m - 0x1_0000_0000
  }

  /** The value loop of RPUSH, LPUSH and ZREM. */
  function ReadValues(buffer: Bytes, pos: nat, total: int): (r: (seq<Bytes>, nat))
    ensures r.1 >= pos
    decreases total
  {
    if total <= 0 then ([], pos)
    else
      var (s, p) := Next(buffer, pos);
      var (rest, q) := ReadValues(buffer, p, total - 1);
      ((if s.Some? then [s.value] else []) + rest, q)
  }

  /** The field loop of XADD. */
  function ReadPairs(buffer: Bytes, pos: nat, total: int): (r: (seq<(Bytes, Bytes)>, nat))
    ensures r.1 >= pos
    decreases total
  {
    if total <= 1 then ([], pos)
    else
      var (f, p) := Next(buffer, pos);
      var (v, q) := Next(buffer, p);
      var (rest, e) := ReadPairs(buffer, q, total - 2);
      ((if f.Some? && v.Some? then [(f.value, v.value)] else []) + rest, e)
  }

  function Number(s: Option<Bytes>, before: Option<nat>): Option<nat> {
    if s.Some? && Positive(s.value).Some? then Positive(s.value) else before
  }

  /** The flag loop of SET. */
  function ReadFlags(buffer: Bytes, pos: nat, total: int, ex: Option<nat>, px: Option<nat>): (r: (Option<nat>, Option<nat>, nat))
    ensures r.2 >= pos
    decreases total
  {
    if total <= 0 then (ex, px, pos)
    else
      var (flag, p) := Next(buffer, pos);
      if flag.None? then (ex, px, p)
      else if EqualFold(flag.value, EX) && total > 1 then
        var (s, q) := Next(buffer, p);
        ReadFlags(buffer, q, total - 2, Number(s, ex), px)
      else if EqualFold(flag.value, PX) && total > 1 then
        var (s, q) := Next(buffer, p);
        ReadFlags(buffer, q, total - 2, ex, Number(s, px))
      else ReadFlags(buffer, p, total - 1, ex, px)
  }

  function ReadSet(buffer: Bytes, pos: nat, total: int): (r: (Command, nat))
    ensures r.1 >= pos
  {
    var (key, p) := Next(buffer, pos);
    if key.None? then (Unknown, p)
    else
      var (value, q) := Next(buffer, p);
      if value.None? then (Unknown, q)
      else
        var (ex, px, e) := ReadFlags(buffer, q, total - 2, None, None);
        (Set(key.value, value.value, ex, px), e)
  }

  function ReadLpop(buffer: Bytes, pos: nat, total: int): (r: (Command, nat))
    ensures r.1 >= pos
  {
    var (key, p) := Next(buffer, pos);
    if key.None? then (Unknown, p)
    else if total - 1 <= 0 then (Lpop(key.value, None), p)
    else
      var (s, q) := Next(buffer, p);
      var n := Number(s, None);
      (Lpop(key.value, if n.Some? then Some(n.value % 0x1_0000_0000) else None), q)
  }

  function ReadXadd(buffer: Bytes, pos: nat, total: int): (r: (Command, nat))
    ensures r.1 >= pos
  {
    var (key, p) := Next(buffer, pos);
    if key.None? then (Unknown, p)
    else
      var (id, q) := Next(buffer, p);
      if id.None? then (Unknown, q)
      else
        var (fields, e) := ReadPairs(buffer, q, total - 2);
        (Xadd(key.value, id.value, fields), e)
  }

  datatype ListKind = RpushKind | LpushKind | ZremKind

  function ListCommand(kind: ListKind, key: Bytes, values: seq<Bytes>): Command {
    match kind case RpushKind => Rpush(key, values) case LpushKind => Lpush(key, values) case ZremKind => Zrem(key, values)
  }

  /** The three parsers of a key and values. */
  function ReadList(kind: ListKind, buffer: Bytes, pos: nat, total: int): (r: (Command, nat))
    ensures r.1 >= pos
  {
    var (key, p) := Next(buffer, pos);
    if key.None? then (Unknown, p)
    else
      var (values, e) := ReadValues(buffer, p, total - 1);
      (ListCommand(kind, key.value, values), e)
  }

  function ReadIncr(buffer: Bytes, pos: nat): (r: (Command, nat))
    ensures r.1 >= pos
  {
    var (key, p) := Next(buffer, pos);
    (if key.Some? then Incr(key.value) else Unknown, p)
  }

  /** static_cast<int64_t> of an unsigned 64-bit value. */
  function ToInt64(n: nat): int
    requires n < TWO64
  { if n <= INT64_MAX then n else n - TWO64 }

  function ReadReplConf(buffer: Bytes, pos: nat): (r: (Command, nat))
    ensures r.1 >= pos
  {
    var (kind, p) := Next(buffer, pos);
    if kind.None? then (Unknown, p)
    else
      var (t, q) := Token(buffer, p);
      var arg := Content(buffer, t);
      if EqualFold(kind.value, Ascii("listening-port")) then
        // The number is assigned to a string, which makes it one character.
        (ReplConf(ListeningPort, if Positive(arg).Some? then [Positive(arg).value % 0x100] else [], [], 0), q)
      else if EqualFold(kind.value, Ascii("capa")) then (ReplConf(Capa, [], arg, 0), q)
      else if EqualFold(kind.value, GETACK) then (GET_ACK_COMMAND, q)
      else if EqualFold(kind.value, ACK) then
        (ReplConf(Ack, [], [], if Positive(arg).Some? then ToInt64(Positive(arg).value) else 0), q)
      else (ReplConf(ListeningPort, [], [], 0), p)
  }

  /** The names of commands whose parsers are not part of this model. */
  const OTHER_NAMES := [
    Ascii("PING"), Ascii("ECHO"), Ascii("GET"), Ascii("TYPE"), Ascii("LRANGE"), Ascii("LLEN"), Ascii("BLPOP"), Ascii("XRANGE"),
    Ascii("XREAD"), Ascii("MULTI"), Ascii("EXEC"), Ascii("DISCARD"), Ascii("INFO"), Ascii("PSYNC"), Ascii("WAIT"), Ascii("CONFIG"),
    Ascii("KEYS"), Ascii("SUBSCRIBE"), Ascii("PUBLISH"), Ascii("UNSUBSCRIBE"), Ascii("ZADD"), Ascii("ZRANK"), Ascii("ZRANGE"),
    Ascii("ZCARD"), Ascii("ZSCORE"), Ascii("GEOADD"), Ascii("GEOPOS"), Ascii("GEODIST"), Ascii("GEOSEARCH"), Ascii("ACL"), Ascii("AUTH")]

  /** The choice of a parser by the command's name. */
  function Dispatch(name: Bytes, buffer: Bytes, pos: nat, total: int): (r: (Command, nat))
    ensures r.1 >= pos
  {
    if EqualFold(name, SET) then ReadSet(buffer, pos, total)
    else if EqualFold(name, INCR) then ReadIncr(buffer, pos)
    else if EqualFold(name, RPUSH) then ReadList(RpushKind, buffer, pos, total)
    else if EqualFold(name, LPUSH) then ReadList(LpushKind, buffer, pos, total)
    else if EqualFold(name, LPOP) then ReadLpop(buffer, pos, total)
    else if EqualFold(name, XADD) then ReadXadd(buffer, pos, total)
    else if EqualFold(name, REPLCONF) then ReadReplConf(buffer, pos)
    else if EqualFold(name, ZREM) then ReadList(ZremKind, buffer, pos, total)
    else (Elsewhere(name), pos)
  }

  predicate Among(name: Bytes, names: seq<Bytes>) { exists i :: 0 <= i < |names| && EqualFold(name, names[i]) }

  /** erase(0, n). */
  function Drop(buffer: Bytes, n: nat): Bytes { if n <= |buffer| then buffer[n..] else [] }

  /** What parseCommand leaves behind: the command, its bytes_processed, the read buffer and the read position. */
  datatype Parsed = Parsed(command: Command, bytesProcessed: nat, rest: Bytes, position: nat)

  /** parseCommand. With a command of another parser, the state is that at the call of that parser. */
  function ParseOne(buffer: Bytes, pos: nat): Parsed
    decreases |buffer|
  {
    var (t, p) := Token(buffer, pos);
    match t.kind
    case UnknownToken => Parsed(Unknown, 0, buffer, p)
    case BulkToken => ParseOne(Drop(buffer, t.endPos + 1), 0)
    case ArrayToken =>
      var (u, q) := Token(buffer, p);
      var name := Content(buffer, u);
      var (c, e) := Dispatch(name, buffer, q, ToInt32(t.length - 1));
      if !c.Elsewhere? then Parsed(c, e - pos, Drop(buffer, e - pos), 0)
      else if Among(name, OTHER_NAMES) then Parsed(c, 0, buffer, e)
      else Parsed(Unknown, e - pos, [], 0)
  }

  // ----- parsing undoes printing

  /** The commands whose printed form can be read back: no word has a carriage return. */
  ghost predicate Printable(c: Command) { Sized(c) && Plain(Args(c)) }

  /** The write commands whose numbers fit the types of the parser. */
  predicate Sized(c: Command) {
    && c.IsWrite() && |Args(c)| <= 0x8000_0000
    && (c.Set? ==> (c.ex.Some? ==> c.ex.value <= UINT64_MAX) && (c.px.Some? ==> c.px.value <= UINT64_MAX))
    && (c.Lpop? && c.count.Some? ==> c.count.value <= UINT32_MAX)
  }

  /** The first of several printed words, and where the others start. */
  lemma NextOfBulks(buffer: Bytes, pos: nat, args: seq<Bytes>)
    requires args != [] && Reads(buffer, pos, Bulks(args)) && Plain(args)
    ensures Next(buffer, pos) == (Some(args[0]), pos + |Bulk(args[0])|)
    ensures Reads(buffer, pos + |Bulk(args[0])|, Bulks(args[1..])) && Plain(args[1..])
    ensures |Bulks(args)| == |Bulk(args[0])| + |Bulks(args[1..])|
  {
    hide Next, Reads, Bulk;
    ReadsParts(buffer, pos, Bulk(args[0]), Bulks(args[1..]));
    NextOfBulk(buffer, pos, args[0]);
  }

  lemma {:induction false} ValuesComeBack(buffer: Bytes, pos: nat, values: seq<Bytes>)
    requires Reads(buffer, pos, Bulks(values)) && Plain(values)
    ensures ReadValues(buffer, pos, |values|) == (values, pos + |Bulks(values)|)
    decreases |values|
  {
    hide Next, Reads, Bulk;
    if values != [] {
      NextOfBulks(buffer, pos, values);
      ValuesComeBack(buffer, pos + |Bulk(values[0])|, values[1..]);
      assert [values[0]] + values[1..] == values;
    }
  }

  lemma {:induction false} PairsComeBack(buffer: Bytes, pos: nat, fields: seq<(Bytes, Bytes)>)
    requires Reads(buffer, pos, Bulks(PairArgs(fields))) && Plain(PairArgs(fields))
    ensures |PairArgs(fields)| == 2 * |fields|
    ensures ReadPairs(buffer, pos, 2 * |fields|) == (fields, pos + |Bulks(PairArgs(fields))|)
    decreases |fields|
  {
    hide Next, Reads, Bulk, Plain;
    if fields != [] {
      var args := PairArgs(fields);
      assert args[1..] == [fields[0].1] + PairArgs(fields[1..]) && args[1..][1..] == PairArgs(fields[1..]);
      NextOfBulks(buffer, pos, args);
      NextOfBulks(buffer, pos + |Bulk(args[0])|, args[1..]);
      PairsComeBack(buffer, pos + |Bulk(args[0])| + |Bulk(args[1])|, fields[1..]);
      assert [(fields[0].0, fields[0].1)] + fields[1..] == fields;
    }
  }

  lemma FlagNames()
    ensures EqualFold(EX, EX) && EqualFold(PX, PX) && !EqualFold(PX, EX)
  {
    assert EX[0] == 69 && PX[0] == 80;
  }

  lemma FoldTransfers(a: Bytes, b: Bytes, x: Bytes)
    requires EqualFold(a, b)
    ensures EqualFold(a, x) <==> EqualFold(b, x)
  {
    if |a| == |x| { assert forall i :: 0 <= i < |a| ==> Lower(a[i]) == Lower(b[i]); }
  }

  /** The flags are read back, whatever the case of their names. */
  lemma FlagsComeBack(buffer: Bytes, pos: nat, exName: Bytes, ex: Option<nat>, pxName: Bytes, px: Option<nat>)
    requires ex.Some? ==> ex.value <= UINT64_MAX
    requires px.Some? ==> px.value <= UINT64_MAX
    requires EqualFold(exName, EX) && EqualFold(pxName, PX)
    requires Reads(buffer, pos, Bulks(Flag(exName, ex) + Flag(pxName, px))) && Plain(Flag(exName, ex) + Flag(pxName, px))
    ensures var flags := Flag(exName, ex) + Flag(pxName, px);
            ReadFlags(buffer, pos, |flags|, None, None) == (ex, px, pos + |Bulks(flags)|)
  {
    hide Next, Reads, Bulk, EqualFold, Print, Positive;
    var flags, more := Flag(exName, ex) + Flag(pxName, px), Flag(pxName, px);
    var q := if ex.Some? then pos + |Bulk(exName)| + |Bulk(Print(ex.value))| else pos;
    if ex.Some? {
      assert flags[1..] == [Print(ex.value)] + more && flags[1..][1..] == more;
      NextOfBulks(buffer, pos, flags);
      NextOfBulks(buffer, pos + |Bulk(exName)|, flags[1..]);
      PositiveOfPrint(ex.value);
    } else {
      assert flags == more;
    }
    PxComesBack(buffer, q, ex, pxName, px);
  }

  lemma PxComesBack(buffer: Bytes, q: nat, ex: Option<nat>, pxName: Bytes, px: Option<nat>)
    requires px.Some? ==> px.value <= UINT64_MAX
    requires EqualFold(pxName, PX) && Reads(buffer, q, Bulks(Flag(pxName, px))) && Plain(Flag(pxName, px))
    ensures ReadFlags(buffer, q, |Flag(pxName, px)|, ex, None) == (ex, px, q + |Bulks(Flag(pxName, px))|)
  {
    hide Next, Reads, Bulk, EqualFold, Print, Positive;
    var more := Flag(pxName, px);
    FlagNames();
    FoldTransfers(pxName, PX, EX);
    if px.Some? {
      assert more[1..] == [Print(px.value)];
      NextOfBulks(buffer, q, more);
      NextOfBulks(buffer, q + |Bulk(pxName)|, more[1..]);
      PositiveOfPrint(px.value);
    }
  }

  /** Each printed command chooses its own parser. */
  lemma NamesChoose(c: Command)
    requires c.IsWrite()
    ensures var name := Args(c)[0];
            && EqualFold(name, SET) == c.Set? && EqualFold(name, INCR) == c.Incr? && EqualFold(name, RPUSH) == c.Rpush?
            && EqualFold(name, LPUSH) == c.Lpush? && EqualFold(name, LPOP) == c.Lpop? && EqualFold(name, XADD) == c.Xadd?
            && EqualFold(name, ZREM) == c.Zrem? && !EqualFold(name, REPLCONF)
  {
    assert SET[0] == 83 && INCR[0] == 73 && RPUSH[0] == 82 && LPUSH[0] == LPOP[0] == 76 && XADD[0] == 88 && ZREM[0] == 90;
    hide Ascii;
  }

  /** The words of a command whose keywords are written in another case. */
  function Words(c: Command, name: Bytes, exName: Bytes, pxName: Bytes): seq<Bytes>
    requires c.IsWrite()
  {
    match c
    case Set(key, value, ex, px) => [name, key, value] + Flag(exName, ex) + Flag(pxName, px)
    case _ => [name] + Args(c)[1..]
  }

  lemma SetBack(c: Command, exName: Bytes, pxName: Bytes, buffer: Bytes, pos: nat)
    requires Sized(c) && c.Set? && EqualFold(exName, EX) && EqualFold(pxName, PX)
    requires Plain([c.key, c.value] + Flag(exName, c.ex) + Flag(pxName, c.px))
    requires Reads(buffer, pos, Bulks([c.key, c.value] + Flag(exName, c.ex) + Flag(pxName, c.px)))
    ensures var args := [c.key, c.value] + Flag(exName, c.ex) + Flag(pxName, c.px);
            ReadSet(buffer, pos, |args|) == (c, pos + |Bulks(args)|)
  {
    hide Next, Reads, Bulk, Print, ReadFlags, EqualFold;
    var args := [c.key, c.value] + Flag(exName, c.ex) + Flag(pxName, c.px);
    assert args[1..][1..] == Flag(exName, c.ex) + Flag(pxName, c.px);
    NextOfBulks(buffer, pos, args);
    NextOfBulks(buffer, pos + |Bulk(args[0])|, args[1..]);
    FlagsComeBack(buffer, pos + |Bulk(args[0])| + |Bulk(args[1])|, exName, c.ex, pxName, c.px);
  }

  lemma XaddBack(c: Command, buffer: Bytes, pos: nat)
    requires Printable(c) && c.Xadd? && Reads(buffer, pos, Bulks(Args(c)[1..]))
    ensures ReadXadd(buffer, pos, |Args(c)| - 1) == (c, pos + |Bulks(Args(c)[1..])|)
  {
    hide Next, Reads, Bulk, ReadPairs;
    var args := Args(c)[1..];
    assert args[1..][1..] == PairArgs(c.fields);
    NextOfBulks(buffer, pos, args);
    NextOfBulks(buffer, pos + |Bulk(args[0])|, args[1..]);
    PairsComeBack(buffer, pos + |Bulk(args[0])| + |Bulk(args[1])|, c.fields);
  }

  lemma LpopBack(c: Command, buffer: Bytes, pos: nat)
    requires Printable(c) && c.Lpop? && Reads(buffer, pos, Bulks(Args(c)[1..]))
    ensures ReadLpop(buffer, pos, |Args(c)| - 1) == (c, pos + |Bulks(Args(c)[1..])|)
  {
    hide Next, Reads, Bulk, Print, Positive;
    var args := Args(c)[1..];
    NextOfBulks(buffer, pos, args);
    if c.count.Some? {
      var count := [Print(c.count.value)];
      assert args[1..] == count;
      NextOfBulks(buffer, pos + |Bulk(args[0])|, count);
      PositiveOfPrint(c.count.value);
    } else {
      assert args[1..] == [];
    }
  }

  lemma ListBack(kind: ListKind, key: Bytes, values: seq<Bytes>, buffer: Bytes, pos: nat)
    requires Plain([key] + values) && Reads(buffer, pos, Bulks([key] + values))
    ensures ReadList(kind, buffer, pos, 1 + |values|) == (ListCommand(kind, key, values), pos + |Bulks([key] + values)|)
  {
    hide Next, Reads, Bulk, ReadValues;
    var args := [key] + values;
    assert args[1..] == values;
    NextOfBulks(buffer, pos, args);
    ValuesComeBack(buffer, pos + |Bulk(key)|, values);
  }

  /** The chosen parser reads the remaining words and makes the command of them. */
  lemma DispatchBack(c: Command, buffer: Bytes, pos: nat)
    requires Printable(c) && Reads(buffer, pos, Bulks(Args(c)[1..]))
    ensures Dispatch(Args(c)[0], buffer, pos, |Args(c)| - 1) == (c, pos + |Bulks(Args(c)[1..])|)
  {
    hide Next, Reads, Bulk, Bulks, EqualFold, Print, ReadSet, ReadXadd, ReadLpop, ReadList, Plain;
    NamesChoose(c);
    var args := Args(c)[1..];
    PlainTail(Args(c));
    match c
    case Set(key, value, ex, px) =>
      assert args == [key, value] + Flag(EX, ex) + Flag(PX, px);
      FlagNames();
      SetBack(c, EX, PX, buffer, pos);
    case Incr(key) => IncrBack(key, buffer, pos);
    case Lpop(_, _) => LpopBack(c, buffer, pos);
    case Xadd(_, _, _) => XaddBack(c, buffer, pos);
    case Rpush(key, values) =>
      assert args == [key] + values;
      ListBack(RpushKind, key, values, buffer, pos);
    case Lpush(key, values) =>
      assert args == [key] + values;
      ListBack(LpushKind, key, values, buffer, pos);
    case Zrem(key, members) =>
      assert args == [key] + members;
      ListBack(ZremKind, key, members, buffer, pos);
  }

  lemma IncrBack(key: Bytes, buffer: Bytes, pos: nat)
    requires Plain([key]) && Reads(buffer, pos, Bulks([key]))
    ensures [INCR, key][1..] == [key] && ReadIncr(buffer, pos) == (Incr(key), pos + |Bulks([key])|)
  {
    hide Next, Reads, Bulk;
    assert [key][1..] == [];
    NextOfBulks(buffer, pos, [key]);
  }

  lemma PlainTail(args: seq<Bytes>)
    requires args != []
    ensures Plain(args) <==> CR !in args[0] && Plain(args[1..])
  {
    assert args == [args[0]] + args[1..];
  }

  /** What parseCommand makes of an array header and the name that follows it. */
  lemma ParseArray(buffer: Bytes, count: nat, p: nat, name: Bytes, q: nat)
    requires Token(buffer, 0) == (ParsedToken(ArrayToken, 0, 0, count), p) && Next(buffer, p) == (Some(name), q)
    ensures var (c, e) := Dispatch(name, buffer, q, ToInt32(count - 1));
            ParseOne(buffer, 0) ==
              if !c.Elsewhere? then Parsed(c, e, Drop(buffer, e), 0)
              else if Among(name, OTHER_NAMES) then Parsed(c, 0, buffer, e)
              else Parsed(Unknown, e, [], 0)
  {
    hide Dispatch, Token, Content, Among;
    NextIsContent(buffer, p);
  }

  /** Where the words after the first one start in a printed request. */
  function TailAt(words: seq<Bytes>): nat
    requires words != []
  { |ArrayHeader(|words|)| + |Bulk(words[0])| }

  /** A printed request without carriage returns: its name chooses the parser, which finds the other words. */
  lemma RequestIsRead(words: seq<Bytes>, rest: Bytes)
    requires 0 < |words| < TWO64 && Plain(words)
    ensures var buffer := Request(words) + rest;
            var (c, e) := Dispatch(words[0], buffer, TailAt(words), ToInt32(|words| - 1));
            && Reads(buffer, TailAt(words), Bulks(words[1..])) && |Request(words)| == TailAt(words) + |Bulks(words[1..])|
            && ParseOne(buffer, 0) ==
                 if !c.Elsewhere? then Parsed(c, e, Drop(buffer, e), 0)
                 else if Among(words[0], OTHER_NAMES) then Parsed(c, 0, buffer, e)
                 else Parsed(Unknown, e, [], 0)
  {
    hide Next, Reads, Bulk, Bulks, ArrayHeader, Dispatch, Plain, ParseOne, Token, Among, Drop, Ascii;
    var header, buffer := ArrayHeader(|words|), Request(words) + rest;
    ReadsWhole(Request(words), rest);
    ReadsParts(buffer, 0, header, Bulks(words));
    TokenOfHeader(buffer, 0, |words|);
    NextOfBulks(buffer, |header|, words);
    ParseArray(buffer, |words|, |header|, words[0], TailAt(words));
  }

  /** Parsing a printed command gives it back, consumes exactly its bytes and reports their number. */
  lemma ParseUndoesPrint(c: Command, rest: Bytes)
    requires Printable(c)
    ensures ParseOne(Request(Args(c)) + rest, 0) == Parsed(c, |Request(Args(c))|, rest, 0)
  {
    hide Reads, Bulks, ArrayHeader, Args, Dispatch, Plain, ParseOne, Among, TailAt, Request;
    var args := Args(c);
    ArgsNotEmpty(c);
    RequestIsRead(args, rest);
    DispatchBack(c, Request(args) + rest, TailAt(args));
  }

  // ----- the requests, word by word

  /** SET key value, with EX and PX if they are given. */
  lemma SetIsRead(key: Bytes, value: Bytes, ex: Option<nat>, px: Option<nat>, rest: Bytes)
    requires Plain([key, value])
    requires (ex.Some? ==> ex.value <= UINT64_MAX) && (px.Some? ==> px.value <= UINT64_MAX)
    ensures var words := [Ascii("SET"), key, value] + (if ex.Some? then [Ascii("EX"), Print(ex.value)] else [])
                         + (if px.Some? then [Ascii("PX"), Print(px.value)] else []);
            ParseOne(Request(words) + rest, 0) == Parsed(Set(key, value, ex, px), |Request(words)|, rest, 0)
  {
    var c := Set(key, value, ex, px);
    hide Request, ParseOne, Print, Plain, Ascii;
    NameIsPlain(c);
    FlagsArePlain(ex, px);
    PlainJoins([SET], [key, value]);
    PlainJoins([SET] + [key, value], Flag(EX, ex) + Flag(PX, px));
    assert Args(c) == [SET] + [key, value] + (Flag(EX, ex) + Flag(PX, px));
    assert Args(c) == [Ascii("SET"), key, value] + (if ex.Some? then [Ascii("EX"), Print(ex.value)] else [])
                      + (if px.Some? then [Ascii("PX"), Print(px.value)] else []);
    ParseUndoesPrint(c, rest);
  }

  lemma PlainJoins(a: seq<Bytes>, b: seq<Bytes>)
    requires Plain(a) && Plain(b)
    ensures Plain(a + b)
  {}

  lemma KeyIsRead(c: Command, name: Bytes, key: Bytes, more: seq<Bytes>, rest: Bytes)
    requires Sized(c) && Args(c) == [name, key] + more && Plain([key]) && Plain(more)
    ensures ParseOne(Request([name, key] + more) + rest, 0) == Parsed(c, |Request([name, key] + more)|, rest, 0)
  {
    hide Request, ParseOne, Args;
    assert Args(c)[0] == name;
    NameIsPlain(c);
    assert Plain([name]);
    hide Plain;
    PlainJoins([name], [key]);
    PlainJoins([name] + [key], more);
    assert [name] + [key] + more == [name, key] + more;
    ParseUndoesPrint(c, rest);
  }

  /** RPUSH, LPUSH and ZREM: a key and values. */
  lemma ListsAreRead(key: Bytes, values: seq<Bytes>, rest: Bytes)
    requires Plain([key]) && Plain(values) && |values| < 0x7FFF_FFFF
    ensures var words := [Ascii("RPUSH"), key] + values;
            ParseOne(Request(words) + rest, 0) == Parsed(Rpush(key, values), |Request(words)|, rest, 0)
    ensures var words := [Ascii("LPUSH"), key] + values;
            ParseOne(Request(words) + rest, 0) == Parsed(Lpush(key, values), |Request(words)|, rest, 0)
    ensures var words := [Ascii("ZREM"), key] + values;
            ParseOne(Request(words) + rest, 0) == Parsed(Zrem(key, values), |Request(words)|, rest, 0)
  {
    hide Request, ParseOne, Plain, Ascii;
    KeyIsRead(Rpush(key, values), RPUSH, key, values, rest);
    KeyIsRead(Lpush(key, values), LPUSH, key, values, rest);
    KeyIsRead(Zrem(key, values), ZREM, key, values, rest);
  }

  /** INCR key, and LPOP key with a count if it is given. */
  lemma KeysAreRead(key: Bytes, count: nat, rest: Bytes)
    requires Plain([key]) && count <= UINT32_MAX
    ensures var words := [Ascii("INCR"), key]; ParseOne(Request(words) + rest, 0) == Parsed(Incr(key), |Request(words)|, rest, 0)
    ensures var words := [Ascii("LPOP"), key]; ParseOne(Request(words) + rest, 0) == Parsed(Lpop(key, None), |Request(words)|, rest, 0)
    ensures var words := [Ascii("LPOP"), key, Print(count)];
            ParseOne(Request(words) + rest, 0) == Parsed(Lpop(key, Some(count)), |Request(words)|, rest, 0)
  {
    CountIsPlain(Some(count));
    NoWords();
    hide Request, ParseOne, Plain, Ascii, Print;
    assert [INCR, key] + [] == [INCR, key] && [LPOP, key] + [] == [LPOP, key] && [LPOP, key] + [Print(count)] == [LPOP, key, Print(count)];
    KeyIsRead(Incr(key), INCR, key, [], rest);
    KeyIsRead(Lpop(key, None), LPOP, key, [], rest);
    KeyIsRead(Lpop(key, Some(count)), LPOP, key, [Print(count)], rest);
  }

  /** Field and value alternate, in the order of the fields. */
  lemma {:induction false} PairArgsAt(fields: seq<(Bytes, Bytes)>, i: nat)
    requires i < |fields|
    ensures |PairArgs(fields)| == 2 * |fields| && PairArgs(fields)[2 * i] == fields[i].0 && PairArgs(fields)[2 * i + 1] == fields[i].1
  {
    PairArgsCount(fields);
    if i > 0 {
      PairArgsAt(fields[1..], i - 1);
      assert PairArgs(fields)[2..] == PairArgs(fields[1..]);
    }
  }

  /** XADD key identifier, and the fields, each followed by its value. */
  lemma XaddIsRead(key: Bytes, id: Bytes, fields: seq<(Bytes, Bytes)>, words: seq<Bytes>, rest: Bytes)
    requires Plain(words) && |words| == 3 + 2 * |fields| <= 0x8000_0000
    requires words[0] == Ascii("XADD") && words[1] == key && words[2] == id
    requires forall i {:trigger fields[i]} :: 0 <= i < |fields| ==> words[3 + 2 * i] == fields[i].0 && words[4 + 2 * i] == fields[i].1
    ensures ParseOne(Request(words) + rest, 0) == Parsed(Xadd(key, id, fields), |Request(words)|, rest, 0)
  {
    hide Request, ParseOne, Plain, Ascii;
    var c := Xadd(key, id, fields);
    PairArgsCount(fields);
    var args := Args(c);
    forall j | 3 <= j < |words| ensures words[j] == args[j] {
      var i := (j - 3) / 2;
      PairArgsAt(fields, i);
      assert j == 3 + 2 * i || j == 4 + 2 * i;
      assert words[3 + 2 * i] == fields[i].0;
    }
    assert words == args;
    ParseUndoesPrint(c, rest);
  }

  // ----- whatever the case of the keywords

  /** The parser is chosen by the name up to its case. */
  lemma DispatchIgnoresCase(a: Bytes, b: Bytes, buffer: Bytes, pos: nat, total: int)
    requires EqualFold(a, b) && !Dispatch(b, buffer, pos, total).0.Elsewhere?
    ensures Dispatch(a, buffer, pos, total) == Dispatch(b, buffer, pos, total)
  {
    hide EqualFold, Ascii, ReadSet, ReadIncr, ReadList, ReadLpop, ReadXadd, ReadReplConf;
    FoldTransfers(a, b, SET);
    FoldTransfers(a, b, INCR);
    FoldTransfers(a, b, RPUSH);
    FoldTransfers(a, b, LPUSH);
    FoldTransfers(a, b, LPOP);
    FoldTransfers(a, b, XADD);
    FoldTransfers(a, b, REPLCONF);
    FoldTransfers(a, b, ZREM);
  }

  lemma {:induction false} SameSize(a: seq<Bytes>, b: seq<Bytes>)
    requires |a| == |b| && forall i :: 0 <= i < |a| ==> |a[i]| == |b[i]|
    ensures |Bulks(a)| == |Bulks(b)|
  {
    if a != [] { SameSize(a[1..], b[1..]); }
  }

  lemma RecasedIsPlain(s: Bytes, t: Bytes)
    requires Recased(s, t) && CR !in t
    ensures CR !in s
  {}

  /** The flags with recased names: as long as before, and without a carriage return. */
  lemma FlagsStayPlain(exName: Bytes, pxName: Bytes, ex: Option<nat>, px: Option<nat>)
    requires Recased(exName, EX) && Recased(pxName, PX)
    ensures var flags, before := Flag(exName, ex) + Flag(pxName, px), Flag(EX, ex) + Flag(PX, px);
            && |flags| == |before| && Plain(flags) && forall i :: 0 <= i < |flags| ==> |flags[i]| == |before[i]|
  {
    hide Print;
    FlagsArePlain(ex, px);
    var flags, before := Flag(exName, ex) + Flag(pxName, px), Flag(EX, ex) + Flag(PX, px);
    assert ex.Some? ==> before[1] == Print(ex.value);
    assert px.Some? ==> before[|before| - 1] == Print(px.value);
    RecasedIsPlain(exName, EX);
    RecasedIsPlain(pxName, PX);
    RecasedLengths(exName, EX);
    RecasedLengths(pxName, PX);
  }

  /** Other keywords of the same lengths change nothing about the lengths, nor about carriage returns. */
  lemma OtherKeywords(name: Bytes, first: Bytes, middle: seq<Bytes>, flags: seq<Bytes>, before: seq<Bytes>)
    requires Plain([first] + middle + before) && CR !in name && |name| == |first|
    requires |flags| == |before| && Plain(flags) && forall i :: 0 <= i < |flags| ==> |flags[i]| == |before[i]|
    ensures var words, args := [name] + middle + flags, [first] + middle + before;
            |words| == |args| && Plain(words) && forall i :: 0 <= i < |words| ==> |words[i]| == |args[i]|
  {
    var words, args, n := [name] + middle + flags, [first] + middle + before, 1 + |middle|;
    assert forall i :: 1 <= i < n ==> words[i] == middle[i - 1] == args[i];
    assert forall i :: n <= i < |words| ==> words[i] == flags[i - n] && args[i] == before[i - n];
  }

  /** What the words have in common with those that are printed. */
  lemma WordsShape(c: Command, name: Bytes, exName: Bytes, pxName: Bytes)
    returns (middle: seq<Bytes>, flags: seq<Bytes>, before: seq<Bytes>)
    requires c.IsWrite()
    ensures Args(c) != [] && Args(c) == [Args(c)[0]] + middle + before && Words(c, name, exName, pxName) == [name] + middle + flags
    ensures if c.Set? then flags == Flag(exName, c.ex) + Flag(pxName, c.px) && before == Flag(EX, c.ex) + Flag(PX, c.px)
            else flags == before == []
  {
    hide Args, Ascii, Flag, Print;
    ArgsNotEmpty(c);
    if c.Set? {
      ArgsOfSet(c.key, c.value, c.ex, c.px);
      middle, flags, before := [c.key, c.value], Flag(exName, c.ex) + Flag(pxName, c.px), Flag(EX, c.ex) + Flag(PX, c.px);
      assert Args(c) == [SET] + middle + before && Words(c, name, exName, pxName) == [name] + middle + flags;
    } else {
      middle, flags, before := Args(c)[1..], [], [];
      assert Words(c, name, exName, pxName) == [name] + middle + flags;
    }
  }

  /** The words with recased keywords: as long as before, and without a carriage return. */
  lemma WordsArePlain(c: Command, name: Bytes, exName: Bytes, pxName: Bytes)
    requires Printable(c) && Recased(name, Args(c)[0]) && Recased(exName, EX) && Recased(pxName, PX)
    ensures var words := Words(c, name, exName, pxName);
            && |words| == |Args(c)| && words != [] && words[0] == name && Plain(words)
            && forall i :: 0 <= i < |words| ==> |words[i]| == |Args(c)[i]|
  {
    hide Recased, Ascii, Flag, Plain, Args, Words;
    var middle, flags, before := WordsShape(c, name, exName, pxName);
    NameIsPlain(c);
    RecasedIsPlain(name, Args(c)[0]);
    RecasedLengths(name, Args(c)[0]);
    if c.Set? { FlagsStayPlain(exName, pxName, c.ex, c.px); } else { NoWords(); }
    OtherKeywords(name, Args(c)[0], middle, flags, before);
  }

  lemma RecasedLengths(s: Bytes, t: Bytes)
    requires Recased(s, t)
    ensures |s| == |t|
  {}

  lemma WordsBack(c: Command, name: Bytes, exName: Bytes, pxName: Bytes, buffer: Bytes, pos: nat)
    requires Printable(c) && EqualFold(name, Args(c)[0]) && EqualFold(exName, EX) && EqualFold(pxName, PX)
    requires Plain(Words(c, name, exName, pxName)) && Reads(buffer, pos, Bulks(Words(c, name, exName, pxName)[1..]))
    ensures var args := Words(c, name, exName, pxName)[1..]; Dispatch(name, buffer, pos, |args|) == (c, pos + |Bulks(args)|)
  {
    hide Next, Reads, Bulk, Bulks, EqualFold, Print, Plain, Dispatch;
    var args := Words(c, name, exName, pxName)[1..];
    if c.Set? {
      assert args == [c.key, c.value] + Flag(exName, c.ex) + Flag(pxName, c.px);
      PlainTail(Words(c, name, exName, pxName));
      SetBack(c, exName, pxName, buffer, pos);
      SetIsDispatched(c, buffer, pos, |args|);
    } else {
      assert args == Args(c)[1..];
      DispatchBack(c, buffer, pos);
    }
    DispatchIgnoresCase(name, Args(c)[0], buffer, pos, |args|);
  }

  lemma SetIsDispatched(c: Command, buffer: Bytes, pos: nat, total: int)
    requires c.Set?
    ensures Dispatch(Args(c)[0], buffer, pos, total) == ReadSet(buffer, pos, total)
  {
    hide ReadSet, EqualFold;
    NamesChoose(c);
  }

  /**
   * A write command is read back whatever the case of its name, and of EX and PX, letter by letter; it takes
   * as many bytes as before and leaves exactly what follows.
   */
  lemma ParseIgnoresCase(c: Command, name: Bytes, exName: Bytes, pxName: Bytes, rest: Bytes)
    requires Printable(c) && Recased(name, Args(c)[0]) && Recased(exName, EX) && Recased(pxName, PX)
    ensures var text := Request(Words(c, name, exName, pxName));
            ParseOne(text + rest, 0) == Parsed(c, |Request(Args(c))|, rest, 0) && |text| == |Request(Args(c))|
  {
    hide Reads, Bulks, ArrayHeader, Args, Words, Dispatch, Plain, ParseOne, Among, EqualFold, Recased, TailAt, Ascii;
    ArgsNotEmpty(c);
    FoldIsRecased(name, Args(c)[0]);
    FoldIsRecased(exName, EX);
    FoldIsRecased(pxName, PX);
    WordsArePlain(c, name, exName, pxName);
    var words := Words(c, name, exName, pxName);
    SameSize(words, Args(c));
    RequestIsRead(words, rest);
    WordsBack(c, name, exName, pxName, Request(words) + rest, TailAt(words));
  }

  /**
   * A request with any other name is answered as an unknown command. Only its header and name are counted, and
   * everything else that was in the buffer is gone with it.
   */
  lemma UnknownDropsTheBuffer(words: seq<Bytes>, rest: Bytes)
    requires 0 < |words| < TWO64 && Plain(words)
    requires forall known <- [SET, INCR, RPUSH, LPUSH, LPOP, XADD, ZREM, REPLCONF] + OTHER_NAMES :: !Recased(words[0], known)
    ensures ParseOne(Request(words) + rest, 0) == Parsed(Unknown, |ArrayHeader(|words|) + Bulk(words[0])|, [], 0)
  {
    hide Reads, Bulks, Bulk, ArrayHeader, Plain, ParseOne, EqualFold, Recased, Ascii, Request, OTHER_NAMES,
      ReadSet, ReadIncr, ReadList, ReadLpop, ReadXadd, ReadReplConf;
    RequestIsRead(words, rest);
    var names := [SET, INCR, RPUSH, LPUSH, LPOP, XADD, ZREM, REPLCONF];
    forall i | 0 <= i < |OTHER_NAMES| ensures !EqualFold(words[0], OTHER_NAMES[i]) {
      assert OTHER_NAMES[i] in names + OTHER_NAMES;
      FoldIsRecased(words[0], OTHER_NAMES[i]);
    }
    forall i | 0 <= i < |names| ensures !EqualFold(words[0], names[i]) {
      assert names[i] in names + OTHER_NAMES;
      FoldIsRecased(words[0], names[i]);
    }
    assert !EqualFold(words[0], names[0]) && !EqualFold(words[0], names[1]) && !EqualFold(words[0], names[2])
      && !EqualFold(words[0], names[3]) && !EqualFold(words[0], names[4]) && !EqualFold(words[0], names[5])
      && !EqualFold(words[0], names[6]) && !EqualFold(words[0], names[7]);
  }

  // ----- and it does so only without carriage returns

  /** The first of several printed words, carriage returns or not. */
  lemma FirstOfBulks(buffer: Bytes, pos: nat, args: seq<Bytes>)
    requires args != [] && Reads(buffer, pos, Bulks(args))
    ensures Next(buffer, pos).0.Some? && (Next(buffer, pos).0.value == args[0] <==> CR !in args[0])
    ensures CR !in args[0] ==> Next(buffer, pos).1 == pos + |Bulk(args[0])|
    ensures Reads(buffer, pos + |Bulk(args[0])|, Bulks(args[1..]))
  {
    hide Next, Reads, Bulk;
    ReadsParts(buffer, pos, Bulk(args[0]), Bulks(args[1..]));
    NextIsContentIffPlain(buffer, pos, args[0]);
    if CR !in args[0] { NextOfBulk(buffer, pos, args[0]); }
  }

  lemma {:induction false} ValuesDiffer(buffer: Bytes, pos: nat, values: seq<Bytes>)
    requires Reads(buffer, pos, Bulks(values)) && !Plain(values)
    ensures ReadValues(buffer, pos, |values|).0 != values
    decreases |values|
  {
    hide Next, Reads, Bulk, Plain;
    if values == [] {
      NoWords();
    } else {
      FirstOfBulks(buffer, pos, values);
      PlainTail(values);
      if CR !in values[0] {
        ValuesDiffer(buffer, pos + |Bulk(values[0])|, values[1..]);
        assert ReadValues(buffer, pos, |values|).0[1..] == ReadValues(buffer, pos + |Bulk(values[0])|, |values| - 1).0;
      } else {
        assert ReadValues(buffer, pos, |values|).0[0] != values[0];
      }
    }
  }

  lemma NoWords()
    ensures Plain([])
  {}

  lemma {:induction false} PairsAreFew(buffer: Bytes, pos: nat, total: nat)
    ensures |ReadPairs(buffer, pos, total).0| <= total / 2
    decreases total
  {
    hide Next;
    if total > 1 { PairsAreFew(buffer, Next(buffer, Next(buffer, pos).1).1, total - 2); }
  }

  lemma {:induction false} PairsDiffer(buffer: Bytes, pos: nat, fields: seq<(Bytes, Bytes)>)
    requires Reads(buffer, pos, Bulks(PairArgs(fields))) && !Plain(PairArgs(fields))
    ensures ReadPairs(buffer, pos, 2 * |fields|).0 != fields
    decreases |fields|
  {
    hide Next, Reads, Bulk, Plain;
    if fields == [] {
      NoWords();
    } else {
      var args, total := PairArgs(fields), 2 * |fields|;
      var p, q := pos + |Bulk(args[0])|, pos + |Bulk(args[0])| + |Bulk(args[1])|;
      assert args[1..] == [fields[0].1] + PairArgs(fields[1..]) && args[1..][1..] == PairArgs(fields[1..]);
      FirstOfBulks(buffer, pos, args);
      FirstOfBulks(buffer, p, args[1..]);
      PlainTail(args);
      PlainTail(args[1..]);
      PairsAreFew(buffer, Next(buffer, Next(buffer, pos).1).1, total - 2);
      PairsHead(buffer, pos, total, fields);
      if CR !in args[0] && CR !in args[1] { PairsDiffer(buffer, q, fields[1..]); }
    }
  }

  /** If all pairs are read, the first one is made of the first two words. */
  lemma PairsHead(buffer: Bytes, pos: nat, total: nat, fields: seq<(Bytes, Bytes)>)
    requires fields != [] && total == 2 * |fields|
    requires |ReadPairs(buffer, Next(buffer, Next(buffer, pos).1).1, total - 2).0| < |fields|
    ensures ReadPairs(buffer, pos, total).0 == fields ==>
              && Next(buffer, pos).0 == Some(fields[0].0) && Next(buffer, Next(buffer, pos).1).0 == Some(fields[0].1)
              && ReadPairs(buffer, Next(buffer, Next(buffer, pos).1).1, total - 2).0 == fields[1..]
  {
    hide Next;
    var (f, p) := Next(buffer, pos);
    var (v, q) := Next(buffer, p);
    var own := if f.Some? && v.Some? then [(f.value, v.value)] else [];
    var rest := ReadPairs(buffer, q, total - 2).0;
    assert ReadPairs(buffer, pos, total).0 == own + rest;
    if own + rest == fields {
      assert own != [];
      assert (own + rest)[0] == own[0] && (own + rest)[1..] == rest;
    }
  }

  /** With a carriage return in one of its words, a command is not read back. */
  lemma DispatchDiffers(c: Command, buffer: Bytes, pos: nat)
    requires Sized(c) && !Plain(Args(c)) && Reads(buffer, pos, Bulks(Args(c)[1..]))
    ensures Dispatch(Args(c)[0], buffer, pos, |Args(c)| - 1).0 != c
  {
    hide Next, Reads, Bulk, EqualFold, Print, Positive, ReadFlags, ReadPairs, ReadValues, Plain;
    NamesChoose(c);
    var args := Args(c)[1..];
    var p := pos + |Bulk(args[0])|;
    PlainTail(Args(c));
    PlainTail(args);
    NameIsPlain(c);
    FirstOfBulks(buffer, pos, args);
    if CR !in args[0] {
      match c
      case Set(key, value, ex, px) =>
        assert args[1..][1..] == Flag(EX, ex) + Flag(PX, px);
        FirstOfBulks(buffer, p, args[1..]);
        PlainTail(args[1..]);
        FlagsArePlain(ex, px);
      case Incr(key) =>
        assert args[1..] == [];
        NoWords();
      case Rpush(key, values) =>
        assert args[1..] == values;
        ValuesDiffer(buffer, p, values);
      case Lpush(key, values) =>
        assert args[1..] == values;
        ValuesDiffer(buffer, p, values);
      case Lpop(key, count) =>
        assert args[1..] == if count.Some? then [Print(count.value)] else [];
        CountIsPlain(count);
      case Xadd(key, streamId, fields) =>
        assert args[1..][1..] == PairArgs(fields);
        FirstOfBulks(buffer, p, args[1..]);
        PlainTail(args[1..]);
        PairArgsCount(fields);
        if CR !in streamId { PairsDiffer(buffer, p + |Bulk(streamId)|, fields); }
      case Zrem(key, members) =>
        assert args[1..] == members;
        ValuesDiffer(buffer, p, members);
    }
  }

  lemma NameIsPlain(c: Command)
    requires c.IsWrite()
    ensures CR !in Args(c)[0]
  {}

  lemma PrintIsPlain(n: nat)
    ensures CR !in Print(n)
  {
    PrintIsCanonical(n);
  }

  lemma FlagsArePlain(ex: Option<nat>, px: Option<nat>)
    ensures Plain(Flag(EX, ex) + Flag(PX, px))
  {
    hide Print;
    if ex.Some? { PrintIsPlain(ex.value); }
    if px.Some? { PrintIsPlain(px.value); }
  }

  lemma CountIsPlain(count: Option<nat>)
    ensures Plain(if count.Some? then [Print(count.value)] else [])
  {
    hide Print;
    if count.Some? { PrintIsPlain(count.value); }
  }

  /** A printed write command is read back exactly when none of its words has a carriage return. */
  lemma ParseUndoesPrintIff(c: Command, rest: Bytes)
    requires Sized(c)
    ensures ParseOne(Request(Args(c)) + rest, 0).command == c <==> Plain(Args(c))
  {
    hide Next, Reads, Bulk, Bulks, ArrayHeader, Args, Dispatch, Plain, ParseOne, Token, Among;
    if Plain(Args(c)) {
      ParseUndoesPrint(c, rest);
    } else {
      var args := Args(c);
      var header, buffer := ArrayHeader(|args|), Request(args) + rest;
      ArgsNotEmpty(c);
      NameIsPlain(c);
      ReadsWhole(Request(args), rest);
      ReadsParts(buffer, 0, header, Bulks(args));
      TokenOfHeader(buffer, 0, |args|);
      FirstOfBulks(buffer, |header|, args);
      ParseArray(buffer, |args|, |header|, args[0], |header| + |Bulk(args[0])|);
      DispatchDiffers(c, buffer, |header| + |Bulk(args[0])|);
    }
  }

  /** INCR of a key with a carriage return arrives as INCR of what is before it. */
  lemma IncrIsCut(key: Bytes, i: nat, rest: Bytes)
    requires i < |key| && key[i] == CR && CR !in key[..i]
    ensures ParseOne(Request(Args(Incr(key))) + rest, 0).command == Incr(key[..i])
  {
    hide Next, Reads, Bulk, Bulks, ArrayHeader, Plain, ParseOne, Token, Among, EqualFold, Ascii;
    var args := [INCR, key];
    var header, buffer := ArrayHeader(2), Request(args) + rest;
    NamesChoose(Incr(key));
    NameIsPlain(Incr(key));
    ReadsWhole(Request(args), rest);
    ReadsParts(buffer, 0, header, Bulks(args));
    TokenOfHeader(buffer, 0, 2);
    FirstOfBulks(buffer, |header|, args);
    ParseArray(buffer, 2, |header|, INCR, |header| + |Bulk(INCR)|);
    assert args[1..] == [key];
    OneBulk(key);
    NextIsCut(buffer, |header| + |Bulk(INCR)|, key, i);
  }

  /** An input on which printing and parsing do not agree: the replica increments `a` instead of `a`, CR, `b`. */
  lemma AnotherKeyIsIncremented(rest: Bytes)
    ensures Sized(Incr([97, CR, 98])) && ParseOne(Request(Args(Incr([97, CR, 98]))) + rest, 0).command == Incr([97])
  {
    var key := [97, CR, 98];
    assert key[..1] == [97];
    IncrIsCut(key, 1, rest);
  }

  lemma ArgsNotEmpty(c: Command)
    requires c.IsWrite()
    ensures Args(c) != []
  {}

  lemma ReadsWhole(s: Bytes, rest: Bytes)
    ensures Reads(s + rest, 0, s)
  {}

  lemma NextIsContent(buffer: Bytes, pos: nat)
    requires Next(buffer, pos).0.Some?
    ensures Next(buffer, pos) == (Some(Content(buffer, Token(buffer, pos).0)), Token(buffer, pos).1)
  {}

  /** The master's GETACK request. */
  const GET_ACK_TEXT := Request([REPLCONF, GETACK, [STAR]])

  /** The replica's ACK request. */
  function AckText(n: nat): Bytes { Request([REPLCONF, ACK, Print(n)]) }

  lemma ReplConfNames()
    ensures EqualFold(REPLCONF, REPLCONF) && !EqualFold(REPLCONF, SET) && !EqualFold(REPLCONF, INCR) && !EqualFold(REPLCONF, RPUSH)
    ensures !EqualFold(REPLCONF, LPUSH) && !EqualFold(REPLCONF, LPOP) && !EqualFold(REPLCONF, XADD) && !EqualFold(REPLCONF, ZREM)
    ensures EqualFold(GETACK, GETACK) && EqualFold(ACK, ACK) && !EqualFold(ACK, GETACK)
    ensures !EqualFold(GETACK, Ascii("capa")) && !EqualFold(GETACK, Ascii("listening-port"))
    ensures !EqualFold(ACK, Ascii("capa")) && !EqualFold(ACK, Ascii("listening-port"))
    ensures CR !in REPLCONF && CR !in GETACK && CR !in ACK
  {}

  /** A printed REPLCONF with one argument is dispatched to its parser, which sees both words. */
  lemma ReplConfComesBack(kind: Bytes, arg: Bytes, rest: Bytes)
    requires (kind == GETACK || kind == ACK) && CR !in arg
    ensures var text := Request([REPLCONF, kind, arg]);
            ParseOne(text + rest, 0) == Parsed(ReplConfOf(kind, arg), |text|, rest, 0)
  {
    hide Next, Reads, Bulk, Bulks, ArrayHeader, Plain, EqualFold, Ascii, Content, Token, ParseOne, Among;
    var args := [REPLCONF, kind, arg];
    var words, last := args[1..], args[1..][1..];
    ReplConfNames();
    assert Plain(args) by { PlainWords(REPLCONF, kind, arg); }
    var header, buffer := ArrayHeader(3), Request(args) + rest;
    ReadsWhole(Request(args), rest);
    ReadsParts(buffer, 0, header, Bulks(args));
    TokenOfHeader(buffer, 0, 3);
    var p := |header| + |Bulk(REPLCONF)|;
    NextOfBulks(buffer, |header|, args);
    ParseArray(buffer, 3, |header|, REPLCONF, p);
    NextOfBulks(buffer, p, words);
    NextOfBulks(buffer, p + |Bulk(kind)|, last);
    NextIsContent(buffer, p + |Bulk(kind)|);
    NoBulks(last[1..]);
  }

  lemma PlainWords(a: Bytes, b: Bytes, c: Bytes)
    requires CR !in a && CR !in b && CR !in c
    ensures Plain([a, b, c])
  {}

  lemma NoBulks(items: seq<Bytes>)
    requires |items| == 0
    ensures Bulks(items) == []
  {}

  /** What REPLCONF GETACK and REPLCONF ACK mean. */
  function ReplConfOf(kind: Bytes, arg: Bytes): Command {
    if EqualFold(kind, GETACK) then GET_ACK_COMMAND
    else ReplConf(Ack, [], [], if Positive(arg).Some? then ToInt64(Positive(arg).value) else 0)
  }

  /** GETACK takes 37 bytes and is recognised. */
  lemma GetAckComesBack(rest: Bytes)
    ensures ParseOne(GET_ACK_TEXT + rest, 0) == Parsed(GET_ACK_COMMAND, 37, rest, 0)
    ensures |GET_ACK_TEXT| == 37
  {
    ReplConfNames();
    ReplConfComesBack(GETACK, [STAR], rest);
    assert |GET_ACK_TEXT| == 37 by { GetAckSize(); }
  }

  lemma GetAckSize()
    ensures |GET_ACK_TEXT| == 37
  {
    var args := [REPLCONF, GETACK, [STAR]];
    var words, last := args[1..], args[1..][1..];
    assert Bulks(args) == Bulk(REPLCONF) + Bulks(words) && Bulks(words) == Bulk(GETACK) + Bulks(last);
    assert Bulks(last) == Bulk([STAR]) + Bulks(last[1..]);
    NoBulks(last[1..]);
    assert |Print(8)| == |Print(6)| == |Print(1)| == |Print(3)| == 1;
    assert |Bulk(REPLCONF)| == 14 && |Bulk(GETACK)| == 12 && |Bulk([STAR])| == 7;
  }

  /** The offset that a replica acknowledges is the one that the master reads. */
  lemma AckComesBack(n: nat, rest: Bytes)
    requires n <= INT64_MAX
    ensures ParseOne(AckText(n) + rest, 0) == Parsed(ReplConf(Ack, [], [], n), |AckText(n)|, rest, 0)
  {
    ReplConfNames();
    PrintIsCanonical(n);
    PositiveOfPrint(n);
    ReplConfComesBack(ACK, Print(n), rest);
  }

  // ----- the printers and parsers in the form of the source

  /** Every to_resp starts with the count, the name and the key. */
  function Head(count: nat, name: Bytes, key: Bytes): Bytes { ArrayHeader(count) + Bulk(name) + Bulk(key) }

  lemma RequestOf(name: Bytes, key: Bytes, more: seq<Bytes>)
    ensures Request([name, key] + more) == Head(2 + |more|, name, key) + Bulks(more)
  {
    hide Bulk, ArrayHeader;
    var args := [name, key] + more;
    var rest := args[1..];
    assert rest[0] == key && rest[1..] == more;
    assert Bulks(args) == Bulk(name) + Bulks(rest) && Bulks(rest) == Bulk(key) + Bulks(more);
    FourParts(ArrayHeader(2 + |more|), Bulk(name), Bulk(key), Bulks(more));
  }

  lemma FourParts(a: Bytes, b: Bytes, c: Bytes, d: Bytes)
    ensures a + (b + (c + d)) == a + b + c + d
  {}

  /** The loop that prints values or members. */
  method AppendAll(cmd: Bytes, items: seq<Bytes>) returns (r: Bytes)
    ensures r == cmd + Bulks(items)
  {
    hide Bulk;
    r := cmd;
    for i := 0 to |items|
      invariant r == cmd + Bulks(items[..i])
    {
      assert items[..i + 1] == items[..i] + [items[i]];
      BulksConcat(items[..i], [items[i]]);
      OneBulk(items[i]);
      r := r + Bulk(items[i]);
    }
    assert items[..|items|] == items;
  }

  lemma OneBulk(s: Bytes)
    ensures Bulks([s]) == Bulk(s)
  {
    assert Bulks([s][1..]) == [];
  }

  lemma {:induction false} PairArgsOfFront(fields: seq<(Bytes, Bytes)>, i: nat)
    requires i < |fields|
    ensures PairArgs(fields[..i + 1]) == PairArgs(fields[..i]) + [fields[i].0, fields[i].1]
    decreases i
  {
    if i == 0 {
      assert PairArgs(fields[..1][1..]) == [];
    } else {
      PairArgsOfFront(fields[1..], i - 1);
      assert fields[..i + 1][1..] == fields[1..][..i] && fields[..i][1..] == fields[1..][..i - 1];
    }
  }

  /** SetCommand::to_resp. */
  method SetToResp(key: Bytes, value: Bytes, ex: Option<nat>, px: Option<nat>) returns (cmd: Bytes)
    ensures cmd == Request(Args(Set(key, value, ex, px)))
  {
    hide Bulk, Bulks, Print, Ascii, Head, Request, Flag, Args;
    ArgsOfSet(key, value, ex, px);
    ghost var flags := Flag(EX, ex) + Flag(PX, px);
    RequestOf(SET, key, [value] + flags);
    OneBulk(value);
    BulksConcat([value], flags);
    BulksConcat(Flag(EX, ex), Flag(PX, px));
    FlagBulks(EX, ex);
    FlagBulks(PX, px);
    var count := 3;
    if ex.Some? { count := count + 2; }
    if px.Some? { count := count + 2; }
    cmd := Head(count, SET, key) + Bulk(value);
    ghost var start := cmd;
    if ex.Some? { cmd := cmd + (Bulk(EX) + Bulk(Print(ex.value))); }
    assert cmd == start + Bulks(Flag(EX, ex));
    if px.Some? { cmd := cmd + (Bulk(PX) + Bulk(Print(px.value))); }
    assert cmd == start + Bulks(Flag(EX, ex)) + Bulks(Flag(PX, px));
    FourParts(Head(count, SET, key), Bulk(value), Bulks(Flag(EX, ex)), Bulks(Flag(PX, px)));
  }

  lemma ArgsOfSet(key: Bytes, value: Bytes, ex: Option<nat>, px: Option<nat>)
    ensures Args(Set(key, value, ex, px)) == [SET, key] + ([value] + (Flag(EX, ex) + Flag(PX, px)))
  {
    hide Flag, Ascii;
  }

  lemma FlagBulks(name: Bytes, n: Option<nat>)
    ensures |Flag(name, n)| == if n.Some? then 2 else 0
    ensures Bulks(Flag(name, n)) == if n.Some? then Bulk(name) + Bulk(Print(n.value)) else []
  {
    hide Bulk, Print;
    if n.Some? { TwoBulks(name, Print(n.value)); }
  }

  /** IncrCommand::to_resp. */
  method IncrToResp(key: Bytes) returns (cmd: Bytes)
    ensures cmd == Request(Args(Incr(key)))
  {
    hide Head, Request;
    RequestOf(INCR, key, []);
    assert [INCR, key] + [] == [INCR, key];
    cmd := Head(2, INCR, key);
    assert cmd + [] == cmd;
  }

  /** LpopCommand::to_resp. */
  method LpopToResp(key: Bytes, count: Option<nat>) returns (cmd: Bytes)
    ensures cmd == Request(Args(Lpop(key, count)))
  {
    hide Bulk, Print, Head, Request, Ascii;
    RequestOf(LPOP, key, if count.Some? then [Print(count.value)] else []);
    cmd := Head(if count.Some? then 3 else 2, LPOP, key);
    if count.Some? {
      OneBulk(Print(count.value));
      cmd := cmd + Bulk(Print(count.value));
    } else {
      assert cmd + [] == cmd;
    }
  }

  /** to_resp of RpushCommand, LpushCommand and ZremCommand. */
  method ListToResp(kind: ListKind, key: Bytes, values: seq<Bytes>) returns (cmd: Bytes)
    ensures cmd == Request(Args(ListCommand(kind, key, values)))
  {
    hide Head, Request, Ascii, Bulks;
    var name := match kind case RpushKind => RPUSH case LpushKind => LPUSH case ZremKind => ZREM;
    RequestOf(name, key, values);
    cmd := AppendAll(Head(2 + |values|, name, key), values);
  }

  /** XaddCommand::to_resp. */
  method XaddToResp(key: Bytes, streamId: Bytes, fields: seq<(Bytes, Bytes)>) returns (cmd: Bytes)
    ensures cmd == Request(Args(Xadd(key, streamId, fields)))
  {
    hide Bulk, Head, Request, Ascii;
    RequestOf(XADD, key, [streamId] + PairArgs(fields));
    assert [XADD, key] + ([streamId] + PairArgs(fields)) == Args(Xadd(key, streamId, fields));
    OneBulk(streamId);
    BulksConcat([streamId], PairArgs(fields));
    PairArgsCount(fields);
    cmd := Head(3 + 2 * |fields|, XADD, key) + Bulk(streamId);
    ghost var start := cmd;
    for i := 0 to |fields|
      invariant cmd == start + Bulks(PairArgs(fields[..i]))
    {
      PairArgsOfFront(fields, i);
      BulksConcat(PairArgs(fields[..i]), [fields[i].0, fields[i].1]);
      TwoBulks(fields[i].0, fields[i].1);
      cmd := cmd + (Bulk(fields[i].0) + Bulk(fields[i].1));
    }
    assert fields[..|fields|] == fields;
    assert cmd == Head(3 + 2 * |fields|, XADD, key) + (Bulk(streamId) + Bulks(PairArgs(fields)));
  }

  /** to_resp of the write commands. */
  method ToResp(c: Command) returns (cmd: Bytes)
    requires c.IsWrite()
    ensures cmd == Request(Args(c))
  {
    match c
    case Set(key, value, ex, px) => cmd := SetToResp(key, value, ex, px);
    case Incr(key) => cmd := IncrToResp(key);
    case Rpush(key, values) => cmd := ListToResp(RpushKind, key, values);
    case Lpush(key, values) => cmd := ListToResp(LpushKind, key, values);
    case Lpop(key, count) => cmd := LpopToResp(key, count);
    case Xadd(key, streamId, fields) => cmd := XaddToResp(key, streamId, fields);
    case Zrem(key, members) => cmd := ListToResp(ZremKind, key, members);
  }

  lemma TwoBulks(a: Bytes, b: Bytes)
    ensures Bulks([a, b]) == Bulk(a) + Bulk(b)
  {
    assert [a, b][1..] == [b];
    OneBulk(b);
  }

  lemma {:induction false} PairArgsCount(fields: seq<(Bytes, Bytes)>)
    ensures |PairArgs(fields)| == 2 * |fields|
  {
    if fields != [] { PairArgsCount(fields[1..]); }
  }

  /** The loops of the parsers of RPUSH, LPUSH and ZREM. */
  method ParseValues(c: ClientContext, total: int) returns (values: seq<Bytes>)
    modifies c`currentReadPosition
    ensures (values, c.currentReadPosition) == ReadValues(c.readBuffer, old(c.currentReadPosition), total)
  {
    hide Next;
    ghost var start := c.currentReadPosition;
    var left := total;
    values := [];
    assert values + ReadValues(c.readBuffer, start, total).0 == ReadValues(c.readBuffer, start, total).0;
    while left > 0
      invariant values + ReadValues(c.readBuffer, c.currentReadPosition, left).0 == ReadValues(c.readBuffer, start, total).0
      invariant ReadValues(c.readBuffer, c.currentReadPosition, left).1 == ReadValues(c.readBuffer, start, total).1
    {
      var s := c.NextString();
      if s.Some? { values := values + [s.value]; }
      left := left - 1;
    }
    assert values + [] == values;
  }

  lemma NoPairs(buffer: Bytes, pos: nat, total: int)
    requires total <= 1
    ensures ReadPairs(buffer, pos, total) == ([], pos)
  {}

  lemma PairsStep(buffer: Bytes, pos: nat, total: int, before: seq<(Bytes, Bytes)>)
    requires total > 1
    ensures var (f, p) := Next(buffer, pos);
            var (v, q) := Next(buffer, p);
            var own := if f.Some? && v.Some? then [(f.value, v.value)] else [];
            && before + ReadPairs(buffer, pos, total).0 == before + own + ReadPairs(buffer, q, total - 2).0
            && ReadPairs(buffer, pos, total).1 == ReadPairs(buffer, q, total - 2).1
  {
    hide Next;
    var (f, p) := Next(buffer, pos);
    var (v, q) := Next(buffer, p);
    var own := if f.Some? && v.Some? then [(f.value, v.value)] else [];
    assert ReadPairs(buffer, pos, total).0 == own + ReadPairs(buffer, q, total - 2).0;
  }

  /** The field loop of parseXaddCommand. */
  method ParsePairs(c: ClientContext, total: int) returns (fields: seq<(Bytes, Bytes)>)
    modifies c`currentReadPosition
    ensures (fields, c.currentReadPosition) == ReadPairs(c.readBuffer, old(c.currentReadPosition), total)
  {
    hide Next, ReadPairs;
    ghost var start := c.currentReadPosition;
    var left := total;
    fields := [];
    assert fields + ReadPairs(c.readBuffer, start, total).0 == ReadPairs(c.readBuffer, start, total).0;
    while left > 1
      invariant fields + ReadPairs(c.readBuffer, c.currentReadPosition, left).0 == ReadPairs(c.readBuffer, start, total).0
      invariant ReadPairs(c.readBuffer, c.currentReadPosition, left).1 == ReadPairs(c.readBuffer, start, total).1
    {
      PairsStep(c.readBuffer, c.currentReadPosition, left, fields);
      var field := c.NextString();
      var value := c.NextString();
      if field.Some? && value.Some? { fields := fields + [(field.value, value.value)]; }
      else { assert fields + [] == fields; }
      left := left - 2;
    }
    NoPairs(c.readBuffer, c.currentReadPosition, left);
    assert fields + [] == fields;
  }

  /** convert_positive_string_to_number on an optional word; a failure leaves the field as it was. */
  method ParseNumber(s: Option<Bytes>, before: Option<nat>) returns (r: Option<nat>)
    ensures r == Number(s, before)
  {
    r := before;
    if s.Some? {
      var n := ConvertPositive(s.value);
      if n.Some? { r := n; }
    }
  }

  /** parseSetCommand. */
  method ParseSetCommand(c: ClientContext, total: int) returns (cmd: Command)
    modifies c`currentReadPosition
    ensures (cmd, c.currentReadPosition) == ReadSet(c.readBuffer, old(c.currentReadPosition), total)
  {
    hide Next, EqualFold, Ascii, Number;
    var key := c.NextString();
    if key == None { return Unknown; }
    var value := c.NextString();
    if value == None { return Unknown; }
    var left := total - 2;
    var ex: Option<nat>, px: Option<nat> := None, None;
    ghost var start := c.currentReadPosition;
    while left > 0
      invariant ReadFlags(c.readBuffer, c.currentReadPosition, left, ex, px) == ReadFlags(c.readBuffer, start, total - 2, None, None)
    {
      var flag := c.NextString();
      if flag == None { break; }
      var isEx := IsEqual(flag.value, EX);
      var isPx := IsEqual(flag.value, PX);
      if isEx && left > 1 {
        var s := c.NextString();
        ex := ParseNumber(s, ex);
        left := left - 2;
      } else if isPx && left > 1 {
        var s := c.NextString();
        px := ParseNumber(s, px);
        left := left - 2;
      } else {
        left := left - 1;
      }
    }
    return Set(key.value, value.value, ex, px);
  }

  /** parseLpopCommand. */
  method ParseLpopCommand(c: ClientContext, total: int) returns (cmd: Command)
    modifies c`currentReadPosition
    ensures (cmd, c.currentReadPosition) == ReadLpop(c.readBuffer, old(c.currentReadPosition), total)
  {
    hide Next;
    var key := c.NextString();
    if key == None { return Unknown; }
    if total - 1 <= 0 { return Lpop(key.value, None); }
    var s := c.NextString();
    var n := ParseNumber(s, None);
    return Lpop(key.value, if n.Some? then Some(n.value % 0x1_0000_0000) else None);
  }

  /** parseXaddCommand. */
  method ParseXaddCommand(c: ClientContext, total: int) returns (cmd: Command)
    modifies c`currentReadPosition
    ensures (cmd, c.currentReadPosition) == ReadXadd(c.readBuffer, old(c.currentReadPosition), total)
  {
    hide Next;
    var key := c.NextString();
    if key == None { return Unknown; }
    var id := c.NextString();
    if id == None { return Unknown; }
    var fields := ParsePairs(c, total - 2);
    return Xadd(key.value, id.value, fields);
  }

  /** parseRpushCommand, parseLpushCommand and parseZremCommand. */
  method ParseListCommand(kind: ListKind, c: ClientContext, total: int) returns (cmd: Command)
    modifies c`currentReadPosition
    ensures (cmd, c.currentReadPosition) == ReadList(kind, c.readBuffer, old(c.currentReadPosition), total)
  {
    hide Next;
    var key := c.NextString();
    if key == None { return Unknown; }
    var values := ParseValues(c, total - 1);
    return ListCommand(kind, key.value, values);
  }

  /** parseReplConfCommand. */
  method ParseReplConfCommand(c: ClientContext) returns (cmd: Command)
    modifies c`currentReadPosition
    ensures (cmd, c.currentReadPosition) == ReadReplConf(c.readBuffer, old(c.currentReadPosition))
  {
    hide Next, EqualFold, Ascii, Content, Token;
    var kind := c.NextString();
    if kind == None { return Unknown; }
    var isPort := IsEqual(kind.value, Ascii("listening-port"));
    var isCapa := IsEqual(kind.value, Ascii("capa"));
    var isGetAck := IsEqual(kind.value, GETACK);
    var isAck := IsEqual(kind.value, ACK);
    if isPort {
      var t := c.Parse();
      var port := ConvertPositive(Content(c.readBuffer, t));
      return ReplConf(ListeningPort, if port.Some? then [port.value % 0x100] else [], [], 0);
    } else if isCapa {
      var t := c.Parse();
      return ReplConf(Capa, [], Content(c.readBuffer, t), 0);
    } else if isGetAck {
      var t := c.Parse();
      return GET_ACK_COMMAND;
    } else if isAck {
      var t := c.Parse();
      var offset := ConvertPositive(Content(c.readBuffer, t));
      return ReplConf(Ack, [], [], if offset.Some? then ToInt64(offset.value) else 0);
    }
    return ReplConf(ListeningPort, [], [], 0);
  }

  /** The chain of parseCommand that chooses a parser. */
  method DispatchCommand(name: Bytes, c: ClientContext, total: int) returns (cmd: Command)
    modifies c`currentReadPosition
    ensures (cmd, c.currentReadPosition) == Dispatch(name, c.readBuffer, old(c.currentReadPosition), total)
  {
    hide Next, EqualFold, Ascii, ReadSet, ReadIncr, ReadList, ReadLpop, ReadXadd, ReadReplConf;
    var same := IsEqual(name, SET);
    if same {
      cmd := ParseSetCommand(c, total);
      return;
    }
    same := IsEqual(name, INCR);
    if same {
      cmd := ParseIncrCommand(c);
      return;
    }
    same := IsEqual(name, RPUSH);
    if same {
      cmd := ParseListCommand(RpushKind, c, total);
      return;
    }
    same := IsEqual(name, LPUSH);
    if same {
      cmd := ParseListCommand(LpushKind, c, total);
      return;
    }
    same := IsEqual(name, LPOP);
    if same {
      cmd := ParseLpopCommand(c, total);
      return;
    }
    same := IsEqual(name, XADD);
    if same {
      cmd := ParseXaddCommand(c, total);
      return;
    }
    same := IsEqual(name, REPLCONF);
    if same {
      cmd := ParseReplConfCommand(c);
      return;
    }
    same := IsEqual(name, ZREM);
    if same {
      cmd := ParseListCommand(ZremKind, c, total);
      return;
    }
    cmd := Elsewhere(name);
  }

  /** parseIncrCommand. */
  method ParseIncrCommand(c: ClientContext) returns (cmd: Command)
    modifies c`currentReadPosition
    ensures (cmd, c.currentReadPosition) == ReadIncr(c.readBuffer, old(c.currentReadPosition))
  {
    var key := c.NextString();
    return if key.Some? then Incr(key.value) else Unknown;
  }

  /** parseCommand. */
  method ParseCommand(c: ClientContext) returns (cmd: Command, bytesProcessed: nat)
    modifies c
    ensures Parsed(cmd, bytesProcessed, c.readBuffer, c.currentReadPosition) == ParseOne(old(c.readBuffer), old(c.currentReadPosition))
    decreases |c.readBuffer|
  {
    hide Dispatch, Token, Content, EqualFold;
    var startPosition := c.currentReadPosition;
    var t := c.Parse();
    if t.kind == UnknownToken { return Unknown, 0; }
    if t.kind == BulkToken {
      c.readBuffer := Drop(c.readBuffer, t.endPos + 1);
      c.currentReadPosition := 0;
      cmd, bytesProcessed := ParseCommand(c);
      return;
    }
    var total: int := t.length;
    t := c.Parse();
    var name := Content(c.readBuffer, t);
    cmd := DispatchCommand(name, c, ToInt32(total - 1));
    if cmd.Elsewhere? && Among(name, OTHER_NAMES) { return cmd, 0; }
    bytesProcessed := c.currentReadPosition - startPosition;
    c.commandBytes := bytesProcessed;
    if cmd.Elsewhere? {
      cmd := Unknown;
      c.readBuffer := [];
    } else {
      c.readBuffer := Drop(c.readBuffer, bytesProcessed);
    }
    c.currentReadPosition := 0;
  }
}
