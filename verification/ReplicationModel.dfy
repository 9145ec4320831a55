/**
 * The replication protocol after the handshake: what the master sends, what a replica does with
 * it and what its acknowledgements mean (src/replication.cpp, src/slave-replication.cpp).
 */
module ReplicationModel {
  import opened Bytes
  import opened Decimal
  import opened Resp
  import opened RequestParser
  import opened CommandParser
  import opened Sequences

  // ----- the replica

  /** What the master sends to a replica. */
  datatype Message = Write(c: Command) | AskAck

  function Text(m: Message): Bytes {
    match m case Write(c) => (if c.IsWrite() then Request(Args(c)) else []) case AskAck => GET_ACK_TEXT
  }

  function Texts(ms: seq<Message>): Bytes { if ms == [] then [] else Text(ms[0]) + Texts(ms[1..]) }

  ghost predicate AllPrintable(ms: seq<Message>) { forall m :: m in ms && m.Write? ==> Printable(m.c) }

  /** bytes_processed, the commands executed, and the offset of the ACK that waits in the write buffer. */
  datatype Replica = Replica(processed: nat, applied: seq<Command>, ack: Option<nat>)

  const START := Replica(0, [], None)

  /** A command is executed, counted, and clears the write buffer; GETACK is answered and then counted. */
  function Handled(r: Replica, c: Command, size: nat): Replica {
    if c.ReplConf? && c.subcommand == GetAck
    then Replica(r.processed + size, r.applied, Some(r.processed))
    else Replica(r.processed + size, r.applied + [c], None)
  }

  function Handle(r: Replica, m: Message): Replica {
    match m
    case Write(c) => Handled(r, c, |Text(m)|)
    case AskAck => Handled(r, GET_ACK_COMMAND, 37)
  }

  function HandleAll(r: Replica, ms: seq<Message>): Replica {
    if ms == [] then r else Handle(HandleAll(r, ms[..|ms| - 1]), ms[|ms| - 1])
  }

  /** A command that was parsed has taken bytes out of the buffer. */
  lemma ParseShrinks(buffer: Bytes, pos: nat)
    ensures var p := ParseOne(buffer, pos); p.command.Unknown? || p.command.Elsewhere? || |p.rest| < |buffer|
    decreases |buffer|
  {
    hide Dispatch, Content;
    var t := Token(buffer, pos).0;
    if t.kind.BulkToken? { ParseShrinks(Drop(buffer, t.endPos + 1), 0); }
  }

  /**
   * process_commands: commands are taken from the read buffer until it is empty or one is unknown,
   * or until one of another parser stands there.
   */
  function Process(buffer: Bytes, r: Replica): (Bytes, Replica)
    decreases |buffer|
  {
    if buffer == [] then (buffer, r)
    else
      var p := ParseOne(buffer, 0);
      ParseShrinks(buffer, 0);
      if p.command.Unknown? || p.command.Elsewhere? then (p.rest, r)
      else Process(p.rest, Handled(r, p.command, p.bytesProcessed))
  }

  lemma {:induction false} HandleAllFront(r: Replica, m: Message, ms: seq<Message>)
    ensures HandleAll(r, [m] + ms) == HandleAll(Handle(r, m), ms)
    decreases |ms|
  {
    hide Handle;
    if ms == [] {
      assert [m] + ms == [m] && [m][..0] == [];
    } else {
      assert ([m] + ms)[..|ms|] == [m] + ms[..|ms| - 1];
      HandleAllFront(r, m, ms[..|ms| - 1]);
    }
  }

  /** The replica does to the bytes of a list of messages what the messages say, and leaves nothing over. */
  lemma {:induction false} StreamIsHandled(ms: seq<Message>, r: Replica)
    requires AllPrintable(ms)
    ensures Process(Texts(ms), r) == ([], HandleAll(r, ms))
    decreases |ms|
  {
    hide ParseOne, Args, Request, Handled, HandleAll;
    if ms == [] {
      HandleNothing(r);
    } else {
      var m, rest := ms[0], Texts(ms[1..]);
      assert m in ms;
      match m {
        case Write(c) => ParseUndoesPrint(c, rest);
        case AskAck => GetAckComesBack(rest);
      }
      RequestsAreLong(m);
      StreamIsHandled(ms[1..], Handle(r, m));
      HandleAllFront(r, m, ms[1..]);
      assert ms == [m] + ms[1..];
    }
  }

  lemma HandleNothing(r: Replica)
    ensures HandleAll(r, []) == r
  {}

  lemma RequestsAreLong(m: Message)
    requires m.Write? ==> m.c.IsWrite()
    ensures |Text(m)| > 0
  {
    hide Args, Bulks;
    if m.AskAck? { GetAckSize(); } else { assert |ArrayHeader(|Args(m.c)|)| > 0; }
  }

  // ----- sizes

  function SizeOf(ms: seq<Message>): nat {
    if ms == [] then 0 else SizeOf(ms[..|ms| - 1]) + |Text(ms[|ms| - 1])|
  }

  /** The commands among the messages. */
  function Writes(ms: seq<Message>): seq<Command> {
    if ms == [] then []
    else Writes(ms[..|ms| - 1]) + if ms[|ms| - 1].Write? then [ms[|ms| - 1].c] else []
  }

  function AskCount(ms: seq<Message>): nat {
    if ms == [] then 0 else AskCount(ms[..|ms| - 1]) + if ms[|ms| - 1].AskAck? then 1 else 0
  }

  /** The bytes that commands add to the master's offset. */
  function CommandBytes(cs: seq<Command>): nat {
    if cs == [] then 0 else CommandBytes(cs[..|cs| - 1]) + |Text(Write(cs[|cs| - 1]))|
  }

  lemma {:induction false} SizeSplits(ms: seq<Message>)
    ensures SizeOf(ms) == CommandBytes(Writes(ms)) + 37 * AskCount(ms)
  {
    hide Text;
    if ms != [] {
      var front, last := ms[..|ms| - 1], ms[|ms| - 1];
      SizeSplits(front);
      match last {
        case Write(c) => assert Writes(ms)[..|Writes(ms)| - 1] == Writes(front);
        case AskAck =>
          AskSize();
          assert last == AskAck && Writes(ms) == Writes(front);
      }
    }
  }

  lemma AskSize()
    ensures |Text(AskAck)| == 37
  {
    GetAckSize();
  }

  /** Counting and executing while handling a list of messages. */
  lemma {:induction false} HandledSize(ms: seq<Message>)
    requires AllPrintable(ms)
    ensures HandleAll(START, ms).processed == SizeOf(ms) && HandleAll(START, ms).applied == Writes(ms)
  {
    hide Text, Args;
    if ms != [] {
      var last := ms[|ms| - 1];
      assert last in ms;
      HandledSize(ms[..|ms| - 1]);
      AskSize();
    }
  }

  lemma {:induction false} ProcessedGrows(r: Replica, ms: seq<Message>)
    requires AllPrintable(ms)
    ensures HandleAll(r, ms).processed == r.processed + SizeOf(ms)
  {
    hide Text, Args;
    if ms != [] {
      assert ms[|ms| - 1] in ms;
      ProcessedGrows(r, ms[..|ms| - 1]);
      AskSize();
    }
  }

  /**
   * The answer to a GETACK survives the rest of the read buffer exactly when no write follows it there, as a
   * write clears the write buffer; it reports what came before the last GETACK.
   */
  lemma AckSurvivesIff(r: Replica, ms: seq<Message>)
    requires AllPrintable(ms) && ms != []
    ensures Process(Texts(ms), r).1.ack ==
            if ms[|ms| - 1].AskAck? then Some(r.processed + SizeOf(ms[..|ms| - 1])) else None
  {
    hide Texts, Text, Process, HandleAll, SizeOf, Printable, Args;
    var front, last := ms[..|ms| - 1], ms[|ms| - 1];
    StreamIsHandled(ms, r);
    assert last in ms && forall m :: m in front ==> m in ms;
    ProcessedGrows(r, front);
    LastHandled(r, ms);
    if last.Write? { PrintableIsWrite(last.c); }
  }

  lemma LastHandled(r: Replica, ms: seq<Message>)
    requires ms != []
    ensures HandleAll(r, ms) == Handle(HandleAll(r, ms[..|ms| - 1]), ms[|ms| - 1])
  {}

  lemma {:induction false} SizeConcat(a: seq<Message>, b: seq<Message>)
    ensures SizeOf(a + b) == SizeOf(a) + SizeOf(b)
    ensures Writes(a + b) == Writes(a) + Writes(b) && AskCount(a + b) == AskCount(a) + AskCount(b)
    decreases |b|
  {
    hide Text;
    if b == [] {
      assert a + b == a;
    } else {
      assert (a + b)[..|a + b| - 1] == a + b[..|b| - 1];
      SizeConcat(a, b[..|b| - 1]);
    }
  }

  lemma {:induction false} CommandBytesConcat(a: seq<Command>, b: seq<Command>)
    requires forall c :: c in b ==> c.IsWrite()
    ensures CommandBytes(a + b) == CommandBytes(a) + CommandBytes(b)
    ensures b != [] ==> CommandBytes(b) > 0
    decreases |b|
  {
    hide Text;
    if b == [] {
      assert a + b == a;
    } else {
      assert (a + b)[..|a + b| - 1] == a + b[..|b| - 1];
      assert b[|b| - 1] in b;
      RequestsAreLong(Write(b[|b| - 1]));
      CommandBytesConcat(a, b[..|b| - 1]);
    }
  }

  // ----- the master and its replicas

  /** A BlockedWaitClient. */
  datatype Wait = Wait(client: nat, needed: nat, target: int)

  /** A count that a waiting client is sent. `target` names the offset that was counted for; it is not sent. */
  datatype Told = Told(client: nat, count: nat, target: int)

  /** How many replicas have acknowledged at least `target`. */
  function Acked(known: map<int, int>, target: int): nat { |set fd | fd in known && known[fd] >= target| }

  /** check_blocked_wait_clients: who is answered, and who goes on waiting. */
  function Settle(waits: seq<Wait>, known: map<int, int>): (seq<Told>, seq<Wait>) {
    if waits == [] then ([], [])
    else
      var w, n := waits[|waits| - 1], Acked(known, waits[|waits| - 1].target);
      var (told, left) := Settle(waits[..|waits| - 1], known);
      if n >= w.needed then (told + [Told(w.client, n, w.target)], left) else (told, left + [w])
  }

  lemma SettleNone(known: map<int, int>)
    ensures Settle([], known) == ([], [])
  {}

  lemma SettleNext(waits: seq<Wait>, k: nat, known: map<int, int>)
    requires k < |waits|
    ensures var (told, left), w := Settle(waits[..k], known), waits[k];
            var n := Acked(known, w.target);
            Settle(waits[..k + 1], known) == if n >= w.needed then (told + [Told(w.client, n, w.target)], left) else (told, left + [w])
  {
    hide Acked;
    assert waits[..k + 1][..k] == waits[..k];
  }

  /** check_and_expire_blocked_wait_clients for the clients whose time is up. */
  function ExpireWaits(waits: seq<Wait>, known: map<int, int>, expired: set<nat>): (seq<Told>, seq<Wait>) {
    if waits == [] then ([], [])
    else
      var w := waits[|waits| - 1];
      var (told, left) := ExpireWaits(waits[..|waits| - 1], known, expired);
      if w.client in expired then (told + [Told(w.client, Acked(known, w.target), w.target)], left) else (told, left + [w])
  }

  /**
   * A registered replica: the master's offset and the counted bytes since then, all that was sent,
   * how much of it has been handled, the state of the replica, ACKs on their way, and replica_offset.
   */
  datatype Link = Link(base: nat, counted: nat, sent: seq<Message>, handled: nat, replica: Replica, acks: seq<nat>, acked: int)

  datatype World = World(offset: nat, links: map<int, Link>, waits: seq<Wait>, told: seq<Told>)

  const EMPTY := World(0, map[], [], [])

  function Known(w: World): map<int, int> { map fd | fd in w.links :: w.links[fd].acked }

  function SendAll(links: map<int, Link>, m: Message, counted: nat): map<int, Link> {
    map fd | fd in links :: links[fd].(sent := links[fd].sent + [m], counted := links[fd].counted + counted)
  }

  datatype Event =
    | Register(fd: int)
    | Propagate(c: Command, received: nat)
    | Receive(fd: int)
    | Flush(fd: int)
    | AckArrives(fd: int)
    | WaitCall(client: nat, needed: nat)
    | Expire(clients: set<nat>)

  function Do(w: World, e: Event): World {
    match e
    case Register(fd) =>
      if fd in w.links then w else w.(links := w.links[fd := Link(w.offset, 0, [], 0, START, [], 0)])
    case Propagate(c, received) =>
      if w.links == map[] || !c.IsWrite() then w
      else w.(offset := w.offset + received, links := SendAll(w.links, Write(c), received))
    case Receive(fd) =>
      if fd !in w.links || w.links[fd].handled >= |w.links[fd].sent| then w
      else
        var l := w.links[fd];
        w.(links := w.links[fd := l.(handled := l.handled + 1, replica := Handle(l.replica, l.sent[l.handled]))])
    case Flush(fd) =>
      if fd !in w.links || w.links[fd].replica.ack.None? then w
      else
        var l := w.links[fd];
        w.(links := w.links[fd := l.(acks := l.acks + [l.replica.ack.value], replica := l.replica.(ack := None))])
    case AckArrives(fd) =>
      if fd !in w.links || w.links[fd].acks == [] then w
      else
        var l := w.links[fd];
        var u := w.(links := w.links[fd := l.(acked := l.acks[0], acks := l.acks[1..])]);
        var (told, left) := Settle(u.waits, Known(u));
        u.(told := u.told + told, waits := left)
    case WaitCall(client, needed) =>
      if w.offset == 0 then w.(told := w.told + [Told(client, |w.links|, 0)])
      else
        var n := Acked(Known(w), w.offset);
        if n >= needed then w.(told := w.told + [Told(client, n, w.offset)])
        else w.(links := SendAll(w.links, AskAck, 0), waits := w.waits + [Wait(client, needed, w.offset)])
    case Expire(clients) =>
      var (told, left) := ExpireWaits(w.waits, Known(w), clients);
      w.(told := w.told + told, waits := left)
  }

  function Run(w: World, events: seq<Event>): World
    decreases events
  {
    if events == [] then w else Run(Do(w, events[0]), events[1..])
  }

  /** Writes arrive as they are printed. */
  ghost predicate Canonical(e: Event) {
    e.Propagate? && e.c.IsWrite() ==> Printable(e.c) && e.received == |Text(Write(e.c))|
  }

  /** `a` is the offset that the replica reports for the GETACK sent as message `k`. */
  predicate AckAt(sent: seq<Message>, a: int, k: nat) {
    k < |sent| && sent[k] == AskAck && a == SizeOf(sent[..k])
  }

  /** An offset reported for some GETACK that has been handled. */
  ghost predicate Reported(l: Link, a: int) { exists k: nat :: k < l.handled && AckAt(l.sent, a, k) }

  /** What every step keeps, for each replica. */
  ghost predicate LinkOk(l: Link, offset: nat) {
    && l.handled <= |l.sent| && AllPrintable(l.sent)
    && offset == l.base + l.counted
    && l.replica == HandleAll(START, l.sent[..l.handled]).(ack := l.replica.ack)
    && (l.replica.ack.Some? ==> Reported(l, l.replica.ack.value))
    && (forall a :: a in l.acks ==> Reported(l, a))
    && (l.acked == 0 || Reported(l, l.acked))
  }

  ghost predicate WorldOk(w: World) { forall fd :: fd in w.links ==> LinkOk(w.links[fd], w.offset) }

  /** The part of a link that canonical writes keep: the counted bytes are the printed ones. */
  ghost predicate Exact(w: World) {
    forall fd :: fd in w.links ==> w.links[fd].counted == CommandBytes(Writes(w.links[fd].sent))
  }

  // ----- what every run keeps

  lemma ReportedGrows(l: Link, m: Message, a: int)
    requires l.handled <= |l.sent| && Reported(l, a)
    ensures forall c :: Reported(l.(sent := l.sent + [m], counted := c), a)
  {
    var k: nat :| k < l.handled && AckAt(l.sent, a, k);
    assert (l.sent + [m])[..k] == l.sent[..k];
    assert AckAt(l.sent + [m], a, k);
  }

  lemma SendKeepsLink(l: Link, offset: nat, m: Message, counted: nat)
    requires LinkOk(l, offset) && (m.Write? ==> Printable(m.c))
    ensures LinkOk(l.(sent := l.sent + [m], counted := l.counted + counted), offset + counted)
  {
    hide Printable, AckAt, Reported, SizeOf, HandleAll;
    var u := l.(sent := l.sent + [m], counted := l.counted + counted);
    assert u.sent[..u.handled] == l.sent[..l.handled];
    forall a | Reported(l, a) ensures Reported(u, a) { ReportedGrows(l, m, a); }
  }

  lemma ReceiveKeepsLink(l: Link, offset: nat)
    requires LinkOk(l, offset) && l.handled < |l.sent|
    ensures LinkOk(l.(handled := l.handled + 1, replica := Handle(l.replica, l.sent[l.handled])), offset)
  {
    hide Printable, SizeOf, HandleAll, Text;
    var u := l.(handled := l.handled + 1, replica := Handle(l.replica, l.sent[l.handled]));
    var done := l.sent[..l.handled];
    assert forall m :: m in done ==> m in l.sent;
    HandledSize(done);
    OneMore(done, l.sent[l.handled]);
    assert l.sent[..u.handled] == done + [l.sent[l.handled]];
    assert l.sent[l.handled] in l.sent;
    if l.sent[l.handled].AskAck? { assert AckAt(l.sent, l.replica.processed, l.handled); }
    forall a | Reported(l, a) ensures Reported(u, a) {
      var k: nat :| k < l.handled && AckAt(l.sent, a, k);
      assert k < u.handled && AckAt(u.sent, a, k);
    }
    if l.sent[l.handled].Write? { PrintableIsWrite(l.sent[l.handled].c); }
  }

  lemma PrintableIsWrite(c: Command)
    requires Printable(c)
    ensures c.IsWrite()
  {}

  lemma OneMore(ms: seq<Message>, m: Message)
    ensures HandleAll(START, ms + [m]) == Handle(HandleAll(START, ms), m)
  {
    assert (ms + [m])[..|ms + [m]| - 1] == ms;
  }

  lemma StepKeepsWorld(w: World, e: Event)
    requires WorldOk(w) && (e.Propagate? && e.c.IsWrite() ==> Printable(e.c))
    ensures WorldOk(Do(w, e))
  {
    hide LinkOk, Printable, Settle, ExpireWaits, Acked, Handle;
    var u := Do(w, e);
    forall fd | fd in u.links ensures LinkOk(u.links[fd], u.offset) {
      match e
      case Register(f) => if fd == f && fd !in w.links { NewLink(w.offset); }
      case Propagate(c, received) => if c.IsWrite() { SendKeepsLink(w.links[fd], w.offset, Write(c), received); }
      case Receive(f) =>
        if fd == f && w.links[fd].handled < |w.links[fd].sent| { ReceiveKeepsLink(w.links[fd], w.offset); }
      case Flush(f) => if fd == f { FlushKeepsLink(w.links[fd], w.offset); }
      case AckArrives(f) => if fd == f { ArrivalKeepsLink(w.links[fd], w.offset); }
      case WaitCall(client, needed) => SendKeepsLink(w.links[fd], w.offset, AskAck, 0);
      case Expire(clients) =>
    }
  }

  lemma NewLink(offset: nat)
    ensures LinkOk(Link(offset, 0, [], 0, START, [], 0), offset)
  {}

  lemma FlushKeepsLink(l: Link, offset: nat)
    requires LinkOk(l, offset)
    ensures l.replica.ack.Some? ==>
              LinkOk(l.(acks := l.acks + [l.replica.ack.value], replica := l.replica.(ack := None)), offset)
  {
    hide AckAt, Printable, HandleAll;
    if l.replica.ack.Some? {
      var u := l.(acks := l.acks + [l.replica.ack.value], replica := l.replica.(ack := None));
      assert forall a: int :: Reported(l, a) ==> Reported(u, a);
    }
  }

  lemma ArrivalKeepsLink(l: Link, offset: nat)
    requires LinkOk(l, offset)
    ensures l.acks != [] ==> LinkOk(l.(acked := l.acks[0], acks := l.acks[1..]), offset)
  {
    hide AckAt, Printable, HandleAll;
    if l.acks != [] {
      var u := l.(acked := l.acks[0], acks := l.acks[1..]);
      assert l.acks[0] in l.acks;
      assert forall a: int :: Reported(l, a) ==> Reported(u, a);
    }
  }

  /** Over every run of printable writes the links stay in order. */
  lemma {:induction false} EveryRunKeepsWorld(w: World, events: seq<Event>)
    requires WorldOk(w) && forall e :: e in events && e.Propagate? && e.c.IsWrite() ==> Printable(e.c)
    ensures WorldOk(Run(w, events))
    decreases events
  {
    if events != [] {
      assert events[0] in events;
      StepKeepsWorld(w, events[0]);
      EveryRunKeepsWorld(Do(w, events[0]), events[1..]);
    }
  }

  lemma WritesOfOneMore(ms: seq<Message>, m: Message)
    ensures Writes(ms + [m]) == Writes(ms) + if m.Write? then [m.c] else []
    ensures CommandBytes(Writes(ms + [m])) == CommandBytes(Writes(ms)) + if m.Write? then |Text(m)| else 0
  {
    hide Text;
    assert (ms + [m])[..|ms + [m]| - 1] == ms;
    if m.Write? { assert (Writes(ms) + [m.c])[..|Writes(ms)|] == Writes(ms); } else { assert Writes(ms) + [] == Writes(ms); }
  }

  lemma StepKeepsExact(w: World, e: Event)
    requires Exact(w) && Canonical(e)
    ensures Exact(Do(w, e))
  {
    hide Printable, Settle, ExpireWaits, Acked, Handle, Text, Writes, CommandBytes;
    var u := Do(w, e);
    forall fd | fd in u.links ensures u.links[fd].counted == CommandBytes(Writes(u.links[fd].sent)) {
      match e
      case Register(f) => NothingCounted();
      case Propagate(c, received) => if c.IsWrite() { WritesOfOneMore(w.links[fd].sent, Write(c)); }
      case Receive(f) =>
      case Flush(f) =>
      case AckArrives(f) =>
      case WaitCall(client, needed) => WritesOfOneMore(w.links[fd].sent, AskAck);
      case Expire(clients) =>
    }
  }

  lemma NothingCounted()
    ensures CommandBytes(Writes([])) == 0
  {}

  lemma {:induction false} EveryCanonicalRunIsExact(w: World, events: seq<Event>)
    requires Exact(w) && forall e :: e in events ==> Canonical(e)
    ensures Exact(Run(w, events))
    decreases events
  {
    if events != [] {
      assert events[0] in events;
      StepKeepsExact(w, events[0]);
      EveryCanonicalRunIsExact(Do(w, events[0]), events[1..]);
    }
  }

  /**
   * Conservation: what a replica has processed and what is still on its way is the master's offset
   * since registration plus 37 bytes for every GETACK sent to it, exactly as long as the bytes that
   * the master counted are the bytes that it sent on.
   */
  lemma OffsetsAreConserved(l: Link, offset: nat)
    requires LinkOk(l, offset)
    ensures l.replica.processed + SizeOf(l.sent[l.handled..]) == offset - l.base + 37 * AskCount(l.sent)
       <==> l.counted == CommandBytes(Writes(l.sent))
  {
    hide Text, Writes, CommandBytes, SizeOf, AskCount, HandleAll, Printable, Reported;
    var done, rest := l.sent[..l.handled], l.sent[l.handled..];
    assert forall m :: m in done ==> m in l.sent;
    HandledSize(done);
    assert l.sent == done + rest;
    SizeConcat(done, rest);
    SizeSplits(l.sent);
  }

  /** Hence it holds over every run in which writes arrive in the form in which they are printed. */
  lemma EveryRunConservesOffsets(events: seq<Event>, fd: int)
    requires (forall e :: e in events ==> Canonical(e)) && fd in Run(EMPTY, events).links
    ensures var w := Run(EMPTY, events);
            var l := w.links[fd];
            && l.handled <= |l.sent|
            && l.replica.processed + SizeOf(l.sent[l.handled..]) == w.offset - l.base + 37 * AskCount(l.sent)
            && l.replica.applied == Writes(l.sent[..l.handled])
  {
    EveryRunKeepsWorld(EMPTY, events);
    EveryCanonicalRunIsExact(EMPTY, events);
    var l := Run(EMPTY, events).links[fd];
    OffsetsAreConserved(l, Run(EMPTY, events).offset);
    assert forall m :: m in l.sent[..l.handled] ==> m in l.sent;
    HandledSize(l.sent[..l.handled]);
  }

  // ----- what an acknowledgement means

  /** The commands that the replica had executed when it answered the GETACK sent as message `k`. */
  function ExecutedBy(l: Link, k: nat): seq<Command>
    requires k <= |l.sent|
  { HandleAll(START, l.sent[..k]).applied }

  /** The master's offset after the first `n` writes since the replica registered: what a WAIT for them waits for. */
  function Target(l: Link, n: nat): nat
    requires n <= |Writes(l.sent)|
  { l.base + CommandBytes(Writes(l.sent)[..n]) }

  /** What was executed at the GETACK, and the acknowledged offset, in terms of the writes that were sent. */
  lemma AckInBytes(l: Link, a: int, k: nat)
    requires AllPrintable(l.sent) && AckAt(l.sent, a, k)
    ensures var m := |ExecutedBy(l, k)|;
            && m <= |Writes(l.sent)| && ExecutedBy(l, k) == Writes(l.sent[..k]) == Writes(l.sent)[..m]
            && a == CommandBytes(Writes(l.sent)[..m]) + 37 * AskCount(l.sent[..k])
            && forall c :: c in Writes(l.sent) ==> c.IsWrite()
  {
    hide Text, Writes, CommandBytes, SizeOf, AskCount, HandleAll, Printable;
    var before := l.sent[..k];
    assert forall m :: m in before ==> m in l.sent;
    HandledSize(before);
    SizeSplits(before);
    WritesOfPrefix(l.sent, k);
    WritesAreWrites(l.sent);
  }

  lemma {:induction false} WritesAreWrites(ms: seq<Message>)
    ensures AllPrintable(ms) ==> forall c :: c in Writes(ms) ==> c.IsWrite() && Write(c) in ms
  {
    if AllPrintable(ms) && ms != [] {
      assert forall m :: m in ms[..|ms| - 1] ==> m in ms;
      WritesAreWrites(ms[..|ms| - 1]);
      assert ms[|ms| - 1] in ms;
    }
  }

  /** Whenever the acknowledged offset reaches the target of some writes, these had been executed. */
  ghost predicate Sound(l: Link, a: int, k: nat)
    requires k <= |l.sent|
  { forall n: nat :: n <= |Writes(l.sent)| && a >= Target(l, n) ==> Writes(l.sent)[..n] <= ExecutedBy(l, k) }

  /** Whenever some writes had been executed, the acknowledged offset reaches their target. */
  ghost predicate Complete(l: Link, a: int, k: nat)
    requires k <= |l.sent|
  { forall n: nat :: n <= |Writes(l.sent)| && Writes(l.sent)[..n] <= ExecutedBy(l, k) ==> a >= Target(l, n) }

  /**
   * An ACK never claims a write that had not been executed exactly when everything sent so far had been, or the
   * 37 bytes of each GETACK before it do not make up for the offset at registration and one more write.
   */
  lemma AckIsSoundIff(l: Link, a: int, k: nat)
    requires AllPrintable(l.sent) && AckAt(l.sent, a, k)
    ensures var m := |ExecutedBy(l, k)|;
            && m <= |Writes(l.sent)|
            && (Sound(l, a, k) <==>
                  m == |Writes(l.sent)| || 37 * AskCount(l.sent[..k]) < l.base + |Text(Write(Writes(l.sent)[m]))|)
  {
    hide Text, Writes, CommandBytes, AskCount, HandleAll, Printable, ExecutedBy;
    AckInBytes(l, a, k);
    var cs, m := Writes(l.sent), |ExecutedBy(l, k)|;
    if m < |cs| {
      OneMoreWrite(cs, m);
      assert m + 1 <= |cs| && !(cs[..m + 1] <= cs[..m]);
      forall n: nat | m < n <= |cs| ensures CommandBytes(cs[..n]) >= CommandBytes(cs[..m + 1]) { BytesGrow(cs, m + 1, n); }
      if a >= Target(l, m + 1) { assert !Sound(l, a, k); }
    }
    forall n: nat | n <= m ensures cs[..n] <= cs[..m] {}
  }

  /** And it never claims less than had been executed exactly when the GETACKs before it cover the offset at registration. */
  lemma AckIsCompleteIff(l: Link, a: int, k: nat)
    requires AllPrintable(l.sent) && AckAt(l.sent, a, k)
    ensures Complete(l, a, k) <==> l.base <= 37 * AskCount(l.sent[..k])
  {
    hide Text, Writes, CommandBytes, AskCount, HandleAll, Printable, ExecutedBy;
    AckInBytes(l, a, k);
    var cs, m := Writes(l.sent), |ExecutedBy(l, k)|;
    forall n: nat | n <= |cs| && cs[..n] <= cs[..m] ensures n <= m && CommandBytes(cs[..n]) <= CommandBytes(cs[..m]) {
      BytesGrow(cs, n, m);
    }
    assert cs[..m] <= cs[..m];
    if l.base > 37 * AskCount(l.sent[..k]) { assert a < Target(l, m); }
  }

  lemma OneMoreWrite(cs: seq<Command>, m: nat)
    requires m < |cs|
    ensures CommandBytes(cs[..m + 1]) == CommandBytes(cs[..m]) + |Text(Write(cs[m]))|
  {
    hide Text;
    assert cs[..m + 1][..m] == cs[..m];
  }

  lemma BytesGrow(cs: seq<Command>, i: nat, n: nat)
    requires i <= n <= |cs| && (forall c :: c in cs ==> c.IsWrite())
    ensures CommandBytes(cs[..i]) <= CommandBytes(cs[..n])
    ensures i < n ==> CommandBytes(cs[..i]) < CommandBytes(cs[..n])
  {
    hide CommandBytes;
    assert cs[..n] == cs[..i] + cs[i..n];
    CommandBytesConcat(cs[..i], cs[i..n]);
  }

  /**
   * An ACK before which the GETACKs take no more bytes than the offset at registration: when it reaches a WAIT
   * target, the replica has executed every write counted in that target, and goes on having done so.
   */
  lemma AckCoversWrites(l: Link, offset: nat, a: int, k: nat, n: nat)
    requires LinkOk(l, offset) && AckAt(l.sent, a, k) && k < l.handled
    requires 37 * AskCount(l.sent[..k]) <= l.base && n <= |Writes(l.sent)| && a >= Target(l, n)
    ensures n <= |l.replica.applied| && l.replica.applied[..n] == Writes(l.sent)[..n]
  {
    hide Text, Writes, CommandBytes, SizeOf, AskCount, HandleAll, Printable, Reported, ExecutedBy;
    AckInBytes(l, a, k);
    var cs, m, done := Writes(l.sent), |ExecutedBy(l, k)|, l.sent[..l.handled];
    if n > m { BytesGrow(cs, m, n); }
    assert forall x :: x in done ==> x in l.sent;
    HandledSize(done);
    assert done[..k] == l.sent[..k];
    WritesOfPrefix(done, k);
    WritesOfPrefix(l.sent, l.handled);
  }

  /** The GETACKs never take more bytes than the offset at registration, except for the last one. */
  predicate FewAsks(l: Link) { 37 * (AskCount(l.sent) - 1) <= l.base }

  /**
   * In every canonical run, the acknowledged offset of a replica that was not asked too often can be trusted; one
   * that registered at offset 0 may be asked once.
   */
  lemma EveryRunHonoursAcks(events: seq<Event>, fd: int, n: nat)
    requires (forall e :: e in events ==> Canonical(e)) && fd in Run(EMPTY, events).links
    requires var l := Run(EMPTY, events).links[fd]; FewAsks(l) && n <= |Writes(l.sent)| && l.acked >= Target(l, n)
    ensures var l := Run(EMPTY, events).links[fd];
            n <= |l.replica.applied| && l.replica.applied[..n] == Writes(l.sent)[..n]
  {
    EveryRunKeepsWorld(EMPTY, events);
    hide Run, LinkOk, Canonical, Writes, CommandBytes, Printable, Text, AskCount;
    var w := Run(EMPTY, events);
    AckedHasExecuted(w.links[fd], w.offset, n);
  }

  lemma AckedHasExecuted(l: Link, offset: nat, n: nat)
    requires LinkOk(l, offset) && FewAsks(l) && n <= |Writes(l.sent)| && l.acked >= Target(l, n)
    ensures n <= |l.replica.applied| && l.replica.applied[..n] == Writes(l.sent)[..n]
  {
    hide Writes, CommandBytes, SizeOf, HandleAll, Printable, Text, AskCount;
    if l.acked == 0 {
      WritesAreWrites(l.sent);
      BytesGrow(Writes(l.sent), 0, n);
    } else {
      var k: nat :| k < l.handled && AckAt(l.sent, l.acked, k);
      FirstAsk(l.sent, k);
      AckCoversWrites(l, offset, l.acked, k, n);
    }
  }

  // ----- what a WAIT is answered

  /** The replica has executed every write that a target counts, having been sent all of them. */
  ghost predicate HasExecuted(l: Link, target: int) {
    && l.base == 0
    && forall n: nat :: n <= |Writes(l.sent)| && Target(l, n) <= target ==> Writes(l.sent)[..n] <= l.replica.applied
  }

  ghost function Executing(w: World, target: int): set<int> { set fd | fd in w.links && HasExecuted(w.links[fd], target) }

  /** Every replica registered at offset 0 and was asked at most once. */
  ghost predicate FromTheStart(w: World) {
    forall fd :: fd in w.links ==> w.links[fd].base == 0 && AskCount(w.links[fd].sent) <= 1
  }

  /** Nobody was told more than there is. */
  ghost predicate Truthful(w: World) {
    && (forall t :: t in w.told ==> t.target <= w.offset && t.count <= |Executing(w, t.target)|)
    && (forall x :: x in w.waits ==> x.target <= w.offset)
  }

  /** The replicas that count for a target have executed it. */
  lemma AckedAreExecuting(w: World, target: int)
    requires WorldOk(w) && FromTheStart(w)
    ensures Acked(Known(w), target) <= |Executing(w, target)|
  {
    var known := Known(w);
    var acked := set fd | fd in known && known[fd] >= target;
    forall fd | fd in acked ensures fd in Executing(w, target) { AckedExecutes(w.links[fd], w.offset, target); }
    SubsetSize(acked, Executing(w, target));
  }

  lemma AckedExecutes(l: Link, offset: nat, target: int)
    requires LinkOk(l, offset) && l.base == 0 && AskCount(l.sent) <= 1 && l.acked >= target
    ensures HasExecuted(l, target)
  {
    hide LinkOk, Writes, CommandBytes, AskCount;
    forall n: nat | n <= |Writes(l.sent)| && Target(l, n) <= target ensures Writes(l.sent)[..n] <= l.replica.applied {
      AckedHasExecuted(l, offset, n);
    }
  }

  lemma {:induction false} SubsetSize(a: set<int>, b: set<int>)
    requires a <= b
    ensures |a| <= |b|
  {
    assert b == a + (b - a);
  }

  lemma {:induction false} SettledAreTrue(waits: seq<Wait>, known: map<int, int>)
    ensures forall t :: t in Settle(waits, known).0 ==> t.count == Acked(known, t.target) && exists x :: x in waits && x.target == t.target
    ensures forall x :: x in Settle(waits, known).1 ==> x in waits
  {
    hide Acked;
    if waits != [] {
      SettledAreTrue(waits[..|waits| - 1], known);
      assert waits[|waits| - 1] in waits;
    }
  }

  lemma {:induction false} ExpiredAreTrue(waits: seq<Wait>, known: map<int, int>, expired: set<nat>)
    ensures forall t :: t in ExpireWaits(waits, known, expired).0 ==>
              t.count == Acked(known, t.target) && exists x :: x in waits && x.target == t.target
    ensures forall x :: x in ExpireWaits(waits, known, expired).1 ==> x in waits
  {
    hide Acked;
    if waits != [] {
      ExpiredAreTrue(waits[..|waits| - 1], known, expired);
      assert waits[|waits| - 1] in waits;
    }
  }

  /** Writes that come later do not count for a target that has been reached before. */
  lemma LinkKeepsExecuted(l: Link, u: Link, target: int)
    requires HasExecuted(l, target) && u.base == l.base && l.replica.applied <= u.replica.applied
    requires Writes(u.sent) == Writes(l.sent)
          || (|Writes(u.sent)| == |Writes(l.sent)| + 1 && Writes(l.sent) <= Writes(u.sent) && target < Target(u, |Writes(u.sent)|))
    ensures HasExecuted(u, target)
  {
    hide Writes, CommandBytes;
    forall n: nat | n <= |Writes(u.sent)| && Target(u, n) <= target ensures Writes(u.sent)[..n] <= u.replica.applied {
      assert n <= |Writes(l.sent)| && Writes(u.sent)[..n] == Writes(l.sent)[..n];
    }
  }

  /** One step of one link. */
  lemma StepKeepsExecuted(w: World, e: Event, fd: int, target: int)
    requires WorldOk(w) && Exact(w) && Canonical(e) && fd in w.links && target <= w.offset && HasExecuted(w.links[fd], target)
    ensures fd in Do(w, e).links && HasExecuted(Do(w, e).links[fd], target)
  {
    hide HasExecuted, Printable, Settle, ExpireWaits, Acked, Text, Writes, CommandBytes, HandleAll, Reported, AllPrintable;
    var l, u := w.links[fd], Do(w, e).links[fd];
    match e
    case Register(_) =>
    case Propagate(c, received) =>
      if c.IsWrite() {
        WritesOfOneMore(l.sent, Write(c));
        RequestsAreLong(Write(c));
        assert Writes(u.sent)[..|Writes(u.sent)|] == Writes(u.sent);
        LinkKeepsExecuted(l, u, target);
      }
    case Receive(f) => if fd == f && l.handled < |l.sent| { LinkKeepsExecuted(l, u, target); }
    case Flush(f) => if fd == f && l.replica.ack.Some? { LinkKeepsExecuted(l, u, target); }
    case AckArrives(f) => if fd == f && l.acks != [] { LinkKeepsExecuted(l, u, target); }
    case WaitCall(client, needed) =>
      WritesOfOneMore(l.sent, AskAck);
      LinkKeepsExecuted(l, u, target);
    case Expire(_) =>
  }

  lemma ExecutingGrows(w: World, e: Event, target: int)
    requires WorldOk(w) && Exact(w) && Canonical(e) && target <= w.offset
    ensures |Executing(w, target)| <= |Executing(Do(w, e), target)|
  {
    hide HasExecuted, Do, WorldOk, Exact, Canonical;
    forall fd | fd in Executing(w, target) ensures fd in Executing(Do(w, e), target) { StepKeepsExecuted(w, e, fd, target); }
    SubsetSize(Executing(w, target), Executing(Do(w, e), target));
  }

  /** What a step adds to the answers and to the waiting clients. */
  lemma NewAnswers(w: World, e: Event)
    requires forall x :: x in w.waits ==> x.target <= w.offset
    ensures w.offset <= Do(w, e).offset && forall x :: x in Do(w, e).waits ==> x.target <= Do(w, e).offset
    ensures forall t :: t in Do(w, e).told && t !in w.told ==>
              t.target <= w.offset && (t.count == Acked(Known(Do(w, e)), t.target) || (t.target == 0 && t.count == |Do(w, e).links|))
  {
    hide Settle, ExpireWaits, Acked, Handle, Text;
    match e
    case AckArrives(fd) =>
      if fd in w.links && w.links[fd].acks != [] { SettledAreTrue(w.waits, Known(Do(w, e))); }
    case WaitCall(client, needed) => assert Do(w, e).told != w.told ==> Known(Do(w, e)) == Known(w);
    case Expire(clients) => ExpiredAreTrue(w.waits, Known(w), clients);
    case _ =>
  }

  lemma AllExecuteNothing(w: World)
    requires WorldOk(w) && FromTheStart(w)
    ensures |w.links| <= |Executing(w, 0)|
  {
    forall fd | fd in w.links ensures HasExecuted(w.links[fd], 0) { ExecutesNothing(w.links[fd], w.offset); }
    SubsetSize(w.links.Keys, Executing(w, 0));
  }

  lemma ExecutesNothing(l: Link, offset: nat)
    requires LinkOk(l, offset) && l.base == 0
    ensures HasExecuted(l, 0)
  {
    hide Writes, CommandBytes, HandleAll, Reported;
    WritesAreWrites(l.sent);
    forall n: nat | n <= |Writes(l.sent)| && Target(l, n) <= 0 ensures Writes(l.sent)[..n] <= l.replica.applied {
      BytesGrow(Writes(l.sent), 0, n);
    }
  }

  lemma StepStaysTruthful(w: World, e: Event)
    requires WorldOk(w) && Exact(w) && Truthful(w) && Canonical(e) && FromTheStart(Do(w, e))
    ensures Truthful(Do(w, e))
  {
    hide Do, WorldOk, Exact, FromTheStart, Executing, Acked, Printable, Text;
    var u := Do(w, e);
    StepKeepsWorld(w, e);
    NewAnswers(w, e);
    forall t | t in u.told ensures t.target <= u.offset && t.count <= |Executing(u, t.target)| {
      if t in w.told {
        ExecutingGrows(w, e, t.target);
      } else {
        AckedAreExecuting(u, t.target);
        AllExecuteNothing(u);
      }
    }
  }

  lemma StartBackwards(w: World, e: Event)
    requires FromTheStart(Do(w, e))
    ensures FromTheStart(w)
  {
    hide Settle, ExpireWaits, Acked, Handle, Text;
    forall fd | fd in w.links ensures w.links[fd].base == 0 && AskCount(w.links[fd].sent) <= 1 {
      var l, u := w.links[fd], Do(w, e).links[fd];
      assert u.sent == l.sent || u.sent[..|u.sent| - 1] == l.sent;
    }
  }

  lemma {:induction false} RunBackwards(w: World, events: seq<Event>)
    requires FromTheStart(Run(w, events))
    ensures FromTheStart(w)
    decreases events
  {
    hide Do, FromTheStart;
    if events != [] {
      RunBackwards(Do(w, events[0]), events[1..]);
      StartBackwards(w, events[0]);
    }
  }

  lemma {:induction false} RunStaysTruthful(w: World, events: seq<Event>)
    requires WorldOk(w) && Exact(w) && Truthful(w)
    requires (forall e :: e in events ==> Canonical(e)) && FromTheStart(Run(w, events))
    ensures Truthful(Run(w, events))
    decreases events
  {
    hide Do, WorldOk, Exact, Truthful, FromTheStart, Canonical;
    if events != [] {
      assert events[0] in events;
      RunBackwards(Do(w, events[0]), events[1..]);
      CanonicalIsPrintable(events[0]);
      StepKeepsWorld(w, events[0]);
      StepKeepsExact(w, events[0]);
      StepStaysTruthful(w, events[0]);
      RunStaysTruthful(Do(w, events[0]), events[1..]);
    }
  }

  lemma CanonicalIsPrintable(e: Event)
    requires Canonical(e)
    ensures e.Propagate? && e.c.IsWrite() ==> Printable(e.c)
  {}

  /**
   * What a WAIT reports: in every canonical run in which every replica registered at offset 0 and was asked at
   * most once, a client that is told `n` can rely on `n` replicas having executed every write before its WAIT.
   */
  lemma EveryRunAnswersTruthfully(events: seq<Event>, t: Told)
    requires (forall e :: e in events ==> Canonical(e)) && FromTheStart(Run(EMPTY, events)) && t in Run(EMPTY, events).told
    ensures t.target <= Run(EMPTY, events).offset && t.count <= |Executing(Run(EMPTY, events), t.target)|
  {
    hide Run, FromTheStart, Canonical, Executing;
    RunStaysTruthful(EMPTY, events);
  }

  // ----- and that it is answered

  /** `told` goes to the waiting clients at the positions `at`, in their order, each with the count for its own target. */
  ghost predicate Tells(waits: seq<Wait>, known: map<int, int>, at: seq<nat>, told: seq<Told>) {
    && |at| == |told| && (forall i, j :: 0 <= i < j < |at| ==> at[i] < at[j])
    && forall i {:trigger at[i]} :: 0 <= i < |at| ==>
         && at[i] < |waits| && told[i].client == waits[at[i]].client && told[i].target == waits[at[i]].target
         && told[i].count == |set fd | fd in known && known[fd] >= told[i].target|
  }

  lemma TellsLess(waits: seq<Wait>, known: map<int, int>, at: seq<nat>, told: seq<Told>, x: Wait)
    requires Tells(waits, known, at, told)
    ensures Tells(waits + [x], known, at, told) && |waits| !in at
  {
    assert forall i {:trigger at[i]} :: 0 <= i < |at| ==> (waits + [x])[at[i]] == waits[at[i]];
  }

  lemma TellsMore(waits: seq<Wait>, known: map<int, int>, at: seq<nat>, told: seq<Told>, x: Wait, count: nat)
    requires Tells(waits, known, at, told) && count == |set fd | fd in known && known[fd] >= x.target|
    ensures Tells(waits + [x], known, at + [|waits|], told + [Told(x.client, count, x.target)])
  {
    var more, places, all := told + [Told(x.client, count, x.target)], at + [|waits|], waits + [x];
    AckedCounts(known, x.target);
    forall i | 0 <= i < |places|
      ensures places[i] < |all| && more[i].client == all[places[i]].client && more[i].target == all[places[i]].target
      ensures more[i].count == |set fd | fd in known && known[fd] >= more[i].target|
    {
      AckedCounts(known, more[i].target);
      if i < |at| {
        assert places[i] == at[i] && more[i] == told[i] && all[at[i]] == waits[at[i]];
        AckedCounts(known, told[i].target);
      }
    }
  }

  lemma AckedCounts(known: map<int, int>, target: int)
    ensures Acked(known, target) == |set fd | fd in known && known[fd] >= target|
  {}

  /**
   * check_blocked_wait_clients tells exactly the clients for which enough replicas have an offset of at least their
   * target, each that number, and keeps exactly the others, both in order: `told` and `stay` are their positions.
   */
  lemma {:induction false} SettleMeans(waits: seq<Wait>, known: map<int, int>) returns (told: seq<nat>, stay: seq<nat>)
    ensures Tells(waits, known, told, Settle(waits, known).0) && Selects(waits, stay, Settle(waits, known).1)
    ensures forall p: nat :: p in told <==> p < |waits| && |set fd | fd in known && known[fd] >= waits[p].target| >= waits[p].needed
    ensures forall p: nat :: p in stay <==> p < |waits| && |set fd | fd in known && known[fd] >= waits[p].target| < waits[p].needed
  {
    if waits == [] {
      told, stay := [], [];
    } else {
      var front, x := waits[..|waits| - 1], waits[|waits| - 1];
      var (t, l) := Settle(front, known);
      var at, rest := SettleMeans(front, known);
      assert waits == front + [x];
      AckedCounts(known, x.target);
      var n := Acked(known, x.target);
      hide Acked, Tells, Selects;
      TellsLess(front, known, at, t, x);
      TellsMore(front, known, at, t, x, n);
      SelectsLess(front, rest, l, x);
      SelectsMore(front, rest, l, x);
      if n >= x.needed {
        told, stay := at + [|front|], rest;
      } else {
        told, stay := at, rest + [|front|];
      }
    }
  }

  /** check_and_expire_blocked_wait_clients tells exactly the clients whose time is up, and keeps the others, in order. */
  lemma {:induction false} ExpireMeans(waits: seq<Wait>, known: map<int, int>, expired: set<nat>) returns (told: seq<nat>, stay: seq<nat>)
    ensures Tells(waits, known, told, ExpireWaits(waits, known, expired).0) && Selects(waits, stay, ExpireWaits(waits, known, expired).1)
    ensures forall p: nat :: p in told <==> p < |waits| && waits[p].client in expired
    ensures forall p: nat :: p in stay <==> p < |waits| && waits[p].client !in expired
  {
    if waits == [] {
      told, stay := [], [];
    } else {
      var front, x := waits[..|waits| - 1], waits[|waits| - 1];
      var (t, l) := ExpireWaits(front, known, expired);
      var at, rest := ExpireMeans(front, known, expired);
      assert waits == front + [x];
      AckedCounts(known, x.target);
      var n := Acked(known, x.target);
      hide Acked, Tells, Selects;
      TellsLess(front, known, at, t, x);
      TellsMore(front, known, at, t, x, n);
      SelectsLess(front, rest, l, x);
      SelectsMore(front, rest, l, x);
      if x.client in expired {
        told, stay := at + [|front|], rest;
      } else {
        told, stay := at, rest + [|front|];
      }
    }
  }

  /**
   * Told, in order, are the clients for which enough replicas have an offset of at least their target, each the
   * number of these replicas; left, in order, are the others.
   */
  ghost predicate RightlySettled(waits: seq<Wait>, known: map<int, int>, told: seq<Told>, left: seq<Wait>) {
    exists at: seq<nat>, stay: seq<nat> ::
      && Tells(waits, known, at, told) && Selects(waits, stay, left)
      && (forall p: nat :: p in at <==> p < |waits| && |set fd | fd in known && known[fd] >= waits[p].target| >= waits[p].needed)
      && (forall p: nat :: p in stay <==> p < |waits| && |set fd | fd in known && known[fd] >= waits[p].target| < waits[p].needed)
  }

  lemma SettleIsRight(waits: seq<Wait>, known: map<int, int>)
    ensures RightlySettled(waits, known, Settle(waits, known).0, Settle(waits, known).1)
  {
    hide Settle, Tells, Selects;
    var at, stay := SettleMeans(waits, known);
  }

  /** Told, in order, are the clients whose time is up, each the number of replicas that have reached its target. */
  ghost predicate RightlyExpired(waits: seq<Wait>, known: map<int, int>, expired: set<nat>, told: seq<Told>, left: seq<Wait>) {
    exists at: seq<nat>, stay: seq<nat> ::
      && Tells(waits, known, at, told) && Selects(waits, stay, left)
      && (forall p: nat :: p in at <==> p < |waits| && waits[p].client in expired)
      && (forall p: nat :: p in stay <==> p < |waits| && waits[p].client !in expired)
  }

  lemma ExpiryIsRight(waits: seq<Wait>, known: map<int, int>, expired: set<nat>)
    ensures RightlyExpired(waits, known, expired, ExpireWaits(waits, known, expired).0, ExpireWaits(waits, known, expired).1)
  {
    hide ExpireWaits, Tells, Selects;
    var at, stay := ExpireMeans(waits, known, expired);
  }

  /** So many replicas as the client waits for have acknowledged its target. */
  predicate IsMet(links: map<int, Link>, x: Wait) { |set fd | fd in links && links[fd].acked >= x.target| >= x.needed }

  /** Nobody waits for what has been reached. */
  predicate AllUnmet(w: World) { forall x :: x in w.waits ==> x.target > 0 && !IsMet(w.links, x) }

  lemma MetIsAcked(w: World, x: Wait)
    ensures IsMet(w.links, x) <==> Acked(Known(w), x.target) >= x.needed
  {
    AckedCounts(Known(w), x.target);
    hide Acked;
    assert (set fd | fd in Known(w) && Known(w)[fd] >= x.target) == set fd | fd in w.links && w.links[fd].acked >= x.target;
  }

  lemma SameKnownIsMet(w: World, u: World)
    requires Known(w) == Known(u) && AllUnmet(w)
    ensures forall x :: x in w.waits ==> !IsMet(u.links, x)
  {
    hide Known, IsMet;
    forall x | x in w.waits ensures !IsMet(u.links, x) {
      MetIsAcked(w, x);
      MetIsAcked(u, x);
    }
  }

  /** Whoever is kept waiting has not been reached. */
  lemma SettledAreUnmet(w: World, waits: seq<Wait>, x: Wait)
    requires x in Settle(waits, Known(w)).1
    ensures x in waits && !IsMet(w.links, x)
  {
    var told, stay := SettleMeans(waits, Known(w));
    SelectedMembers(waits, stay, Settle(waits, Known(w)).1, x);
    hide Settle, Selects, Tells;
    var p: nat :| p in stay && p < |waits| && waits[p] == x;
    AckedCounts(Known(w), x.target);
    MetIsAcked(w, x);
  }

  lemma NewLinkMeetsNothing(w: World, fd: int, l: Link)
    requires AllUnmet(w) && fd !in w.links && l.acked == 0
    ensures forall x :: x in w.waits ==> !IsMet(w.links[fd := l], x)
  {
    forall x | x in w.waits ensures !IsMet(w.links[fd := l], x) {
      var links := w.links[fd := l];
      assert (set f | f in links && links[f].acked >= x.target) == set f | f in w.links && w.links[f].acked >= x.target;
    }
  }

  lemma StepKeepsUnmet(w: World, e: Event)
    requires AllUnmet(w)
    ensures AllUnmet(Do(w, e))
  {
    hide IsMet, Settle, ExpireWaits, Acked, Handle, Text;
    var u := Do(w, e);
    match e
    case Register(fd) => if fd !in w.links { NewLinkMeetsNothing(w, fd, Link(w.offset, 0, [], 0, START, [], 0)); }
    case AckArrives(fd) =>
      if fd in w.links && w.links[fd].acks != [] {
        forall x | x in u.waits ensures x.target > 0 && !IsMet(u.links, x) { SettledAreUnmet(u, w.waits, x); }
      }
    case WaitCall(client, needed) =>
      assert Known(u) == Known(w);
      SameKnownIsMet(w, u);
      MetIsAcked(u, Wait(client, needed, w.offset));
    case Expire(clients) =>
      ExpiredAreTrue(w.waits, Known(w), clients);
      assert u.links == w.links;
    case _ =>
      assert Known(u) == Known(w);
      SameKnownIsMet(w, u);
  }

  lemma {:induction false} RunKeepsUnmet(w: World, events: seq<Event>)
    requires AllUnmet(w)
    ensures AllUnmet(Run(w, events))
    decreases events
  {
    hide AllUnmet, Do;
    if events != [] {
      StepKeepsUnmet(w, events[0]);
      RunKeepsUnmet(Do(w, events[0]), events[1..]);
    }
  }

  /** Over every run nobody waits for a number of replicas that has been reached: whoever waited for it has been told. */
  lemma EveryRunAnswersWaits(events: seq<Event>, x: Wait)
    requires x in Run(EMPTY, events).waits
    ensures |set fd | fd in Run(EMPTY, events).links && Run(EMPTY, events).links[fd].acked >= x.target| < x.needed
  {
    RunKeepsUnmet(EMPTY, events);
    hide Run;
    assert !IsMet(Run(EMPTY, events).links, x);
  }

  lemma FirstAsk(ms: seq<Message>, k: nat)
    requires k < |ms| && ms[k] == AskAck
    ensures AskCount(ms[..k]) + 1 <= AskCount(ms)
  {
    hide AskCount;
    var a, b, c := ms[..k], ms[k..], ms[k + 1..];
    assert ms == a + b && b == [AskAck] + c;
    SizeConcat(a, b);
    SizeConcat([AskAck], c);
    OneAsk();
  }

  lemma OneAsk()
    ensures AskCount([AskAck]) == 1
  {
    assert AskCount([AskAck][..0]) == 0;
  }

  lemma WritesOfPrefix(ms: seq<Message>, k: nat)
    requires k <= |ms|
    ensures Writes(ms[..k]) <= Writes(ms)
  {
    hide Writes;
    assert ms == ms[..k] + ms[k..];
    SizeConcat(ms[..k], ms[k..]);
  }

  // ----- a WAIT that is answered too early

  /**
   * A run in which the condition fails: two WAITs for two replicas send two GETACKs to the only
   * replica, whose second ACK counts the first GETACK. A further write of at most 37 bytes is then
   * taken as acknowledged: it has been sent, but the replica has not executed it.
   */
  lemma WaitAnsweredTooEarly(c: Command)
    requires Printable(c) && |Text(Write(c))| <= 37
    ensures var n := |Text(Write(c))|;
            var w := Run(EMPTY, [Register(1), Propagate(c, n), WaitCall(7, 2), WaitCall(8, 2)]
                                + [Receive(1), Receive(1), Receive(1), Flush(1), AckArrives(1), Propagate(c, n), WaitCall(9, 1)]);
            && w.told == [Told(9, 1, 2 * n)] && 1 in w.links
            && Writes(w.links[1].sent) == [c, c] && w.links[1].replica.applied == [c]
  {
    hide Text, Printable, Run, Do, Writes, BothAsked, BothHandled;
    var n := |Text(Write(c))|;
    var first := [Register(1), Propagate(c, n), WaitCall(7, 2), WaitCall(8, 2)];
    var more := [Receive(1), Receive(1), Receive(1), Flush(1), AckArrives(1), Propagate(c, n), WaitCall(9, 1)];
    RunConcat(EMPTY, first, more);
    FirstHalf(c);
    SecondHalf(c);
    assert more == [Receive(1), Receive(1), Receive(1), Flush(1)] + [AckArrives(1), Propagate(c, n), WaitCall(9, 1)];
    RunConcat(BothAsked(c), [Receive(1), Receive(1), Receive(1), Flush(1)], [AckArrives(1), Propagate(c, n), WaitCall(9, 1)]);
    LastPart(c);
    WritesOfSent(c);
  }

  /** Such a write: INCR of a key of one letter takes 21 bytes. */
  lemma SmallWrite()
    ensures Printable(Incr([97])) && |Text(Write(Incr([97])))| == 21
  {
    var args := [INCR, [97]];
    assert Args(Incr([97])) == args;
    assert Bulks(args) == Bulk(INCR) + Bulks(args[1..]) && Bulks(args[1..]) == Bulk([97]) + Bulks(args[1..][1..]);
    NoBulks(args[1..][1..]);
    assert |Print(1)| == |Print(2)| == |Print(4)| == 1;
    assert |Bulk(INCR)| == 10 && |Bulk([97])| == 7 && |ArrayHeader(2)| == 4;
  }

  lemma WritesOfSent(c: Command)
    ensures Writes([Write(c), AskAck, AskAck, Write(c)]) == [c, c]
  {
    var m := Write(c);
    var s := [m, AskAck, AskAck, m];
    assert s[..3] == [m, AskAck, AskAck] && s[..3][..2] == [m, AskAck] && [m, AskAck][..1] == [m] && [m][..0] == [];
    assert Writes([m]) == [c] && Writes([m, AskAck]) == [c] + [] && Writes(s[..3]) == [c];
  }

  /** The world after the two GETACKs have been sent. */
  function BothAsked(c: Command): World {
    var n := |Text(Write(c))|;
    World(n, map[1 := Link(0, n, [Write(c), AskAck, AskAck], 0, START, [], 0)], [Wait(7, 2, n), Wait(8, 2, n)], [])
  }

  /** The world when the replica has sent its second ACK. */
  function BothHandled(c: Command): World {
    var n := |Text(Write(c))|;
    BothAsked(c).(links := map[1 := Link(0, n, [Write(c), AskAck, AskAck], 3, Replica(n + 74, [c], None), [n + 37], 0)])
  }

  lemma FirstHalf(c: Command)
    requires Printable(c)
    ensures Run(EMPTY, [Register(1), Propagate(c, |Text(Write(c))|), WaitCall(7, 2), WaitCall(8, 2)]) == BothAsked(c)
  {
    hide Text, Printable, Run, Do;
    FirstWrite(c);
    FirstAsked(c);
    FourSteps(EMPTY, Register(1), Propagate(c, |Text(Write(c))|), WaitCall(7, 2), WaitCall(8, 2));
  }

  /** The world after the first write. */
  function WroteOnce(c: Command): World {
    var n := |Text(Write(c))|;
    World(n, map[1 := Link(0, n, [Write(c)], 0, START, [], 0)], [], [])
  }

  lemma FirstWrite(c: Command)
    requires Printable(c)
    ensures Do(Do(EMPTY, Register(1)), Propagate(c, |Text(Write(c))|)) == WroteOnce(c)
  {
    hide Text, Printable, Acked, Handle;
    PrintableIsWrite(c);
    var n, m, l := |Text(Write(c))|, Write(c), Link(0, 0, [], 0, START, [], 0);
    var w := World(0, map[1 := l], [], []);
    assert Do(EMPTY, Register(1)) == w;
    OneLink(l, m, n);
    assert [] + [m] == [m] && w.links != map[];
  }

  lemma FirstAsked(c: Command)
    requires Printable(c)
    ensures Do(Do(WroteOnce(c), WaitCall(7, 2)), WaitCall(8, 2)) == BothAsked(c)
  {
    hide Text, Printable, Acked, Handle;
    PrintableIsWrite(c);
    RequestsAreLong(Write(c));
    var n, m := |Text(Write(c))|, Write(c);
    var w := World(n, map[1 := Link(0, n, [m, AskAck], 0, START, [], 0)], [Wait(7, 2, n)], []);
    OneReplica(0, n);
    assert Known(WroteOnce(c)) == map[1 := 0] && Known(w) == map[1 := 0];
    OneLink(Link(0, n, [m], 0, START, [], 0), AskAck, 0);
    assert [m] + [AskAck] == [m, AskAck] && [] + [Wait(7, 2, n)] == [Wait(7, 2, n)];
    assert Do(WroteOnce(c), WaitCall(7, 2)) == w;
    OneLink(Link(0, n, [m, AskAck], 0, START, [], 0), AskAck, 0);
    assert [m, AskAck] + [AskAck] == [m, AskAck, AskAck] && [Wait(7, 2, n)] + [Wait(8, 2, n)] == [Wait(7, 2, n), Wait(8, 2, n)];
  }

  /** The world when the replica has handled some of the messages. */
  function Handling(c: Command, handled: nat, r: Replica): World {
    var n := |Text(Write(c))|;
    BothAsked(c).(links := map[1 := Link(0, n, [Write(c), AskAck, AskAck], handled, r, [], 0)])
  }

  lemma SecondHalf(c: Command)
    requires Printable(c)
    ensures Run(BothAsked(c), [Receive(1), Receive(1), Receive(1), Flush(1)]) == BothHandled(c)
  {
    hide Text, Printable, Run, Do;
    OneWriteReceived(c);
    TwoAsksReceived(c);
    FourSteps(BothAsked(c), Receive(1), Receive(1), Receive(1), Flush(1));
  }

  lemma OneWriteReceived(c: Command)
    requires Printable(c)
    ensures Do(BothAsked(c), Receive(1)) == Handling(c, 1, Replica(|Text(Write(c))|, [c], None))
  {
    hide Text, Printable;
    PrintableIsWrite(c);
    assert [] + [c] == [c];
    assert Handle(START, Write(c)) == Replica(|Text(Write(c))|, [c], None);
    assert BothAsked(c).links[1].sent[0] == Write(c);
  }

  lemma TwoAsksReceived(c: Command)
    ensures var n := |Text(Write(c))|;
            Do(Do(Do(Handling(c, 1, Replica(n, [c], None)), Receive(1)), Receive(1)), Flush(1)) == BothHandled(c)
  {
    hide Text;
    var n := |Text(Write(c))|;
    var w := Handling(c, 1, Replica(n, [c], None));
    assert w.links[1].sent[1] == w.links[1].sent[2] == AskAck;
    assert Do(w, Receive(1)) == Handling(c, 2, Replica(n + 37, [c], Some(n)));
    assert Do(Handling(c, 2, Replica(n + 37, [c], Some(n))), Receive(1)) == Handling(c, 3, Replica(n + 74, [c], Some(n + 37)));
    assert [] + [n + 37] == [n + 37];
  }

  /** The world when the second ACK has arrived. */
  function SecondAcked(c: Command): World {
    var n := |Text(Write(c))|;
    BothAsked(c).(links := map[1 := Link(0, n, [Write(c), AskAck, AskAck], 3, Replica(n + 74, [c], None), [], n + 37)])
  }

  lemma SecondAckArrives(c: Command)
    ensures Do(BothHandled(c), AckArrives(1)) == SecondAcked(c)
  {
    hide Text, Acked, Settle, Handle, HandleAll;
    var n, w0, w1 := |Text(Write(c))|, BothHandled(c), SecondAcked(c);
    assert [n + 37][1..] == [];
    assert Known(w1) == map[1 := n + 37];
    OneReplica(n + 37, n);
    NobodySettled(w1.waits, Known(w1));
    assert w0.links[1 := w1.links[1]] == w1.links && w0.told + [] == w0.told;
  }

  lemma LastPart(c: Command)
    requires Printable(c) && |Text(Write(c))| <= 37
    ensures Run(BothHandled(c), [AckArrives(1), Propagate(c, |Text(Write(c))|), WaitCall(9, 1)]) == WroteTwice(c).(told := [Told(9, 1, 2 * |Text(Write(c))|)])
  {
    hide Text, Printable, Run;
    SecondAckArrives(c);
    SecondWrite(c);
    EarlyAnswer(c);
    hide Do, SecondAcked, WroteTwice, BothHandled;
    ThreeSteps(BothHandled(c), AckArrives(1), Propagate(c, |Text(Write(c))|), WaitCall(9, 1));
  }

  /** The world after the second write. */
  function WroteTwice(c: Command): World {
    var n := |Text(Write(c))|;
    World(n + n, map[1 := Link(0, n + n, [Write(c), AskAck, AskAck, Write(c)], 3, Replica(n + 74, [c], None), [], n + 37)],
          [Wait(7, 2, n), Wait(8, 2, n)], [])
  }

  lemma SecondWrite(c: Command)
    requires Printable(c)
    ensures Do(SecondAcked(c), Propagate(c, |Text(Write(c))|)) == WroteTwice(c)
  {
    hide Text, Printable, Handle, HandleAll;
    PrintableIsWrite(c);
    var m, w := Write(c), SecondAcked(c);
    OneLink(w.links[1], m, |Text(m)|);
    assert [m, AskAck, AskAck] + [m] == [m, AskAck, AskAck, m];
  }

  lemma EarlyAnswer(c: Command)
    requires Printable(c) && |Text(Write(c))| <= 37
    ensures Do(WroteTwice(c), WaitCall(9, 1)) == WroteTwice(c).(told := [Told(9, 1, 2 * |Text(Write(c))|)])
  {
    hide Text, Printable, Acked;
    PrintableIsWrite(c);
    RequestsAreLong(Write(c));
    var n := |Text(Write(c))|;
    OneReplica(n + 37, n + n);
    assert Known(WroteTwice(c)) == map[1 := n + 37] && [] + [Told(9, 1, 2 * n)] == [Told(9, 1, 2 * n)];
  }

  lemma {:induction false} NobodySettled(waits: seq<Wait>, known: map<int, int>)
    requires forall w :: w in waits ==> Acked(known, w.target) < w.needed
    ensures Settle(waits, known) == ([], waits)
  {
    hide Acked;
    if waits != [] {
      assert waits[|waits| - 1] in waits;
      NobodySettled(waits[..|waits| - 1], known);
      assert waits == waits[..|waits| - 1] + [waits[|waits| - 1]];
    }
  }

  lemma ThreeSteps(w: World, a: Event, b: Event, c: Event)
    ensures Run(w, [a, b, c]) == Do(Do(Do(w, a), b), c)
  {
    hide Do;
    assert [a, b, c][1..] == [b, c] && [b, c][1..] == [c] && [c][1..] == [];
    assert Run(Do(Do(w, a), b), [c]) == Run(Do(Do(Do(w, a), b), c), []);
    assert Run(Do(w, a), [b, c]) == Run(Do(Do(w, a), b), [c]);
  }

  lemma FourSteps(w: World, a: Event, b: Event, c: Event, d: Event)
    ensures Run(w, [a, b, c, d]) == Do(Do(Do(Do(w, a), b), c), d)
  {
    hide Do;
    assert [a, b, c, d][1..] == [b, c, d];
    ThreeSteps(Do(w, a), b, c, d);
  }

  lemma OneReplica(acked: int, target: int)
    ensures Acked(map[1 := acked], target) == if acked >= target then 1 else 0
  {
    var known := map[1 := acked];
    var s := set fd | fd in known && known[fd] >= target;
    assert s == if acked >= target then {1} else {};
  }

  lemma OneLink(l: Link, m: Message, counted: nat)
    ensures SendAll(map[1 := l], m, counted) == map[1 := l.(sent := l.sent + [m], counted := l.counted + counted)]
  {}

  lemma {:induction false} RunConcat(w: World, xs: seq<Event>, ys: seq<Event>)
    ensures Run(w, xs + ys) == Run(Run(w, xs), ys)
    decreases xs
  {
    hide Do;
    if xs == [] {
      assert xs + ys == ys;
    } else {
      assert (xs + ys)[1..] == xs[1..] + ys;
      RunConcat(Do(w, xs[0]), xs[1..], ys);
    }
  }
}
