/**
 * The two ends of replication as the source has them: the replica's process_commands loop
 * (src/slave-replication.cpp) and the master's ReplicationManager (src/replication.cpp). Their
 * methods are proved against the functions of ReplicationModel, and they carry the worlds of that
 * model along: whoever represents a world before a call represents the next one after it.
 */
module Replication {
  import opened Bytes
  import opened Decimal
  import opened Resp
  import opened RequestParser
  import opened CommandParser
  import opened ReplicationModel

  /** What the write buffer of a replica holds: nothing, or one ACK. */
  function AckBuffer(ack: Option<nat>): Bytes { if ack.None? then [] else AckText(ack.value) }

  class SlaveReplicationClient {
    var readBuffer: Bytes
    var writeBuffer: Bytes
    var bytesProcessed: nat
    /** The commands given to DB::execute, and the offset of the ACK in the write buffer. */
    ghost var applied: seq<Command>
    ghost var ack: Option<nat>

    ghost predicate Valid()
      reads this
    { writeBuffer == AckBuffer(ack) }

    ghost function View(): Replica
      reads this
    { Replica(bytesProcessed, applied, ack) }

    /** The replica is in the state of a link, and of what was sent on it, the messages up to `flushed` have come in. */
    ghost predicate Follows(l: Link, flushed: nat)
      reads this
    {
      Valid() && View() == l.replica && l.handled <= flushed <= |l.sent| && readBuffer == Texts(l.sent[l.handled..flushed])
    }

    constructor ()
      ensures Valid() && View() == START && readBuffer == []
      ensures forall base :: Follows(Link(base, 0, [], 0, START, [], 0), 0)
    {
      readBuffer, writeBuffer, bytesProcessed, applied, ack := [], [], 0, [], None;
    }

    /** process_commands. */
    method ProcessCommands()
      requires Valid()
      modifies this
      ensures Valid()
      ensures (readBuffer, View()) == Process(old(readBuffer), old(View()))
    {
      hide ParseOne, ArrayHeader, Bulk, Ascii, Print;
      while readBuffer != []
        invariant Valid() && Process(readBuffer, View()) == Process(old(readBuffer), old(View()))
        decreases |readBuffer|
      {
        ParseShrinks(readBuffer, 0);
        var context := new ClientContext(readBuffer);
        var command, bytes := ParseCommand(context);
        readBuffer := context.readBuffer;
        if command.Unknown? || command.Elsewhere? { return; }
        if command.ReplConf? && command.subcommand == GetAck {
          AckTextIs(bytesProcessed);
          writeBuffer := ArrayHeader(3) + Bulk(REPLCONF) + Bulk(ACK) + Bulk(Print(bytesProcessed));
          ack := Some(bytesProcessed);
        } else {
          applied := applied + [command];
          writeBuffer, ack := [], None;
        }
        bytesProcessed := bytesProcessed + bytes;
      }
    }

    /** process_read_buffer after the handshake: every message that has come in is handled. */
    method ProcessReadBuffer(ghost l: Link, ghost flushed: nat)
      requires Follows(l, flushed) && AllPrintable(l.sent)
      modifies this
      ensures Follows(Caught(l, flushed), flushed)
    {
      hide Texts, HandleAll, Process, Printable;
      assert forall m :: m in l.sent[l.handled..flushed] ==> m in l.sent;
      StreamIsHandled(l.sent[l.handled..flushed], l.replica);
      ProcessCommands();
      assert l.sent[flushed..flushed] == [];
      NoTexts();
    }

    /** The write buffer goes to the master. */
    method SendAck(ghost l: Link, ghost flushed: nat) returns (text: Bytes)
      requires Follows(l, flushed)
      modifies this
      ensures text == AckBuffer(l.replica.ack) && Follows(l.(replica := l.replica.(ack := None)), flushed)
    {
      text := writeBuffer;
      writeBuffer, ack := [], None;
    }

    /** What has left the master's write buffer comes in behind what is there. */
    method Receive(text: Bytes, ghost l: Link, ghost flushed: nat, ghost upTo: nat)
      requires Follows(l, flushed) && flushed <= upTo <= |l.sent| && text == Texts(l.sent[flushed..upTo])
      modifies this
      ensures Follows(l, upTo)
    {
      assert l.sent[l.handled..upTo] == l.sent[l.handled..flushed] + l.sent[flushed..upTo];
      TextsConcat(l.sent[l.handled..flushed], l.sent[flushed..upTo]);
      readBuffer := readBuffer + text;
    }
  }

  /** A link whose replica has handled the messages up to a position. */
  ghost function Caught(l: Link, upTo: nat): Link
    requires l.handled <= upTo <= |l.sent|
  { l.(handled := upTo, replica := HandleAll(l.replica, l.sent[l.handled..upTo])) }

  lemma NoTexts()
    ensures Texts([]) == []
  {}

  lemma {:induction false} TextsConcat(a: seq<Message>, b: seq<Message>)
    ensures Texts(a + b) == Texts(a) + Texts(b)
  {
    hide Text;
    if a == [] {
      assert a + b == b;
    } else {
      assert (a + b)[1..] == a[1..] + b;
      TextsConcat(a[1..], b);
    }
  }

  /** Handling what has come in is receiving it message by message. */
  lemma {:induction false} CaughtIsReceived(w: World, fd: int, upTo: nat) returns (events: seq<Event>)
    requires fd in w.links && w.links[fd].handled <= upTo <= |w.links[fd].sent|
    ensures (forall e :: e in events ==> e == Event.Receive(fd)) && |events| == upTo - w.links[fd].handled
    ensures Run(w, events) == w.(links := w.links[fd := Caught(w.links[fd], upTo)])
    decreases upTo - w.links[fd].handled
  {
    hide HandleAll, Handle;
    var l := w.links[fd];
    if l.handled == upTo {
      events := [];
      assert l.sent[l.handled..upTo] == [];
      HandleNothing(l.replica);
      assert w.links[fd := l] == w.links;
    } else {
      var m := l.sent[l.handled];
      var next := Do(w, Event.Receive(fd));
      var rest := CaughtIsReceived(next, fd, upTo);
      events := [Event.Receive(fd)] + rest;
      assert l.sent[l.handled..upTo] == [m] + l.sent[l.handled + 1..upTo];
      HandleAllFront(l.replica, m, l.sent[l.handled + 1..upTo]);
      assert events[1..] == rest;
    }
  }

  lemma AckTextIs(n: nat)
    ensures AckText(n) == ArrayHeader(3) + Bulk(REPLCONF) + Bulk(ACK) + Bulk(Print(n))
  {
    hide ArrayHeader, Bulk, Print, Ascii;
    RequestOf(REPLCONF, ACK, [Print(n)]);
    assert [REPLCONF, ACK] + [Print(n)] == [REPLCONF, ACK, Print(n)];
    OneBulk(Print(n));
  }

  /** The master's side of a connection: its write buffer and replica_offset. */
  datatype Slave = Slave(writeBuffer: Bytes, replicaOffset: int)

  function Offsets(slaves: map<int, Slave>): map<int, int> { map fd | fd in slaves :: slaves[fd].replicaOffset }

  /** Every slave's write buffer with a text appended. */
  function AllAppended(slaves: map<int, Slave>, text: Bytes): map<int, Slave> {
    map fd | fd in slaves :: slaves[fd].(writeBuffer := slaves[fd].writeBuffer + text)
  }

  lemma SomeMember(s: set<int>)
    ensures s == {} || exists x: int :: x in s
  {
    if forall x: int :: x !in s { assert s == {}; }
  }

  /** What the master keeps of a link: replica_offset, and the messages that have not left the write buffer. */
  ghost predicate Serves(slave: Slave, l: Link, flushed: nat) {
    slave.replicaOffset == l.acked && l.handled <= flushed <= |l.sent| && slave.writeBuffer == Texts(l.sent[flushed..])
  }

  /** One message more for every replica. */
  lemma ServesMore(slave: Slave, l: Link, flushed: nat, m: Message, counted: nat)
    requires Serves(slave, l, flushed)
    ensures Serves(slave.(writeBuffer := slave.writeBuffer + Text(m)), l.(sent := l.sent + [m], counted := l.counted + counted), flushed)
  {
    hide Text;
    assert (l.sent + [m])[flushed..] == l.sent[flushed..] + [m];
    TextsConcat(l.sent[flushed..], [m]);
    assert [m][1..] == [];
    assert Texts([m]) == Text(m) + Texts([m][1..]);
  }

  /** The slaves of a world. */
  ghost predicate ServesAll(slaves: map<int, Slave>, links: map<int, Link>, flushed: map<int, nat>) {
    && slaves.Keys == links.Keys == flushed.Keys
    && forall fd :: fd in links ==> Serves(slaves[fd], links[fd], flushed[fd])
  }

  lemma ServesAllMore(slaves: map<int, Slave>, links: map<int, Link>, flushed: map<int, nat>, m: Message, counted: nat)
    requires ServesAll(slaves, links, flushed)
    ensures ServesAll(AllAppended(slaves, Text(m)), SendAll(links, m, counted), flushed)
  {
    hide Serves, Text;
    forall fd | fd in links ensures Serves(AllAppended(slaves, Text(m))[fd], SendAll(links, m, counted)[fd], flushed[fd]) {
      ServesMore(slaves[fd], links[fd], flushed[fd], m, counted);
    }
  }

  lemma NoKeys<V>(m: map<int, V>)
    ensures m == map[] <==> m.Keys == {}
  {
    if m.Keys == {} { assert m == map[]; }
  }

  lemma SameKeys(slaves: map<int, Slave>, links: map<int, Link>, flushed: map<int, nat>)
    requires ServesAll(slaves, links, flushed)
    ensures |slaves| == |links| && (slaves == map[] <==> links == map[])
  {
    hide Serves;
    assert |slaves| == |slaves.Keys| && |links| == |links.Keys|;
    NoKeys(slaves);
    NoKeys(links);
  }

  lemma OffsetsAreKnown(slaves: map<int, Slave>, w: World, flushed: map<int, nat>)
    requires ServesAll(slaves, w.links, flushed)
    ensures Offsets(slaves) == Known(w)
  {
    hide Texts;
    var a, b := Offsets(slaves), Known(w);
    assert a.Keys == b.Keys;
    forall fd | fd in b ensures a[fd] == b[fd] { assert Serves(slaves[fd], w.links[fd], flushed[fd]); }
    assert a == b;
  }

  lemma NobodyExpires(known: map<int, int>, expired: set<nat>)
    ensures ExpireWaits([], known, expired) == ([], [])
  {}

  lemma NextExpires(waits: seq<Wait>, i: nat, known: map<int, int>, expired: set<nat>)
    requires i < |waits|
    ensures var (told, left) := ExpireWaits(waits[..i], known, expired);
            ExpireWaits(waits[..i + 1], known, expired) ==
              if waits[i].client in expired
              then (told + [Told(waits[i].client, Acked(known, waits[i].target), waits[i].target)], left)
              else (told, left + [waits[i]])
  {
    hide Acked;
    assert waits[..i + 1][..i] == waits[..i];
  }

  class ReplicationManager {
    var offset: nat
    var slaveConnections: map<int, Slave>
    var blockedWaitClients: seq<Wait>
    /** How many of the messages to each slave have left its write buffer. */
    ghost var flushed: map<int, nat>

    /** The master is the one of a world. */
    ghost predicate Represents(w: World)
      reads this
    { offset == w.offset && blockedWaitClients == w.waits && ServesAll(slaveConnections, w.links, flushed) }

    constructor ()
      ensures offset == 0 && slaveConnections == map[] && blockedWaitClients == []
      ensures Represents(EMPTY)
    {
      offset, slaveConnections, blockedWaitClients, flushed := 0, map[], [], map[];
    }

    /** The registration of handle_psync: a client that is a slave already stays as it is. */
    method Register(fd: int, ghost w: World)
      requires Represents(w)
      modifies this`slaveConnections, this`flushed
      ensures slaveConnections == if fd in old(slaveConnections) then old(slaveConnections)
                                  else old(slaveConnections)[fd := Slave([], 0)]
      ensures Represents(Do(w, Event.Register(fd)))
    {
      if fd !in slaveConnections {
        slaveConnections := slaveConnections[fd := Slave([], 0)];
        flushed := flushed[fd := 0];
      }
    }

    /** What flush takes out of a slave's write buffer. */
    method Flush(fd: int, ghost w: World) returns (text: Bytes)
      requires Represents(w) && fd in slaveConnections
      modifies this`slaveConnections, this`flushed
      ensures text == Texts(w.links[fd].sent[old(flushed)[fd]..])
      ensures Represents(w) && flushed == old(flushed)[fd := |w.links[fd].sent|]
    {
      NoTexts();
      ghost var sent := w.links[fd].sent;
      assert sent[|sent|..] == [];
      text := slaveConnections[fd].writeBuffer;
      slaveConnections := slaveConnections[fd := slaveConnections[fd].(writeBuffer := [])];
      flushed := flushed[fd := |sent|];
    }

    /** The loop that appends to every slave's write buffer. */
    method Broadcast(text: Bytes)
      modifies this`slaveConnections
      ensures slaveConnections == AllAppended(old(slaveConnections), text)
      ensures Offsets(slaveConnections) == Offsets(old(slaveConnections))
    {
      ghost var start := slaveConnections;
      var todo: set<int> := slaveConnections.Keys;
      while todo != {}
        invariant todo <= start.Keys == slaveConnections.Keys
        invariant forall fd :: fd in todo ==> slaveConnections[fd] == start[fd]
        invariant forall fd :: fd in start && fd !in todo ==>
                    slaveConnections[fd] == start[fd].(writeBuffer := start[fd].writeBuffer + text)
        decreases todo
      {
        SomeMember(todo);
        var fd: int :| fd in todo;
        slaveConnections := slaveConnections[fd := slaveConnections[fd].(writeBuffer := slaveConnections[fd].writeBuffer + text)];
        todo := todo - {fd};
      }
      forall fd | fd in start ensures slaveConnections[fd] == AllAppended(start, text)[fd] { assert fd !in todo; }
      assert slaveConnections.Keys == AllAppended(start, text).Keys;
      assert slaveConnections == AllAppended(start, text);
      assert Offsets(slaveConnections) == Offsets(start);
    }

    /** handle_propagate: without slaves nothing happens, not even to the offset. */
    method HandlePropagate(command: Command, bytesProcessed: nat, ghost w: World) returns (propagated: bool)
      requires Represents(w)
      modifies this`slaveConnections, this`offset
      ensures propagated <==>
                && old(slaveConnections) != map[]
                && (command.Set? || command.Incr? || command.Rpush? || command.Lpush? || command.Lpop? || command.Xadd? || command.Zrem?)
      ensures !propagated ==> slaveConnections == old(slaveConnections) && offset == old(offset)
      ensures propagated ==> offset == old(offset) + bytesProcessed
      ensures propagated ==> slaveConnections == AllAppended(old(slaveConnections), Text(Write(command)))
      ensures Represents(Do(w, Propagate(command, bytesProcessed)))
    {
      hide Args, Request, ServesAll;
      ServesAllMore(slaveConnections, w.links, flushed, Write(command), bytesProcessed);
      SameKeys(slaveConnections, w.links, flushed);
      if slaveConnections == map[] { return false; }
      if !command.IsWrite() { return false; }
      var raw := ToResp(command);
      offset := offset + bytesProcessed;
      Broadcast(raw);
      return true;
    }

    /** The counting loops of handle_wait and check_blocked_wait_clients. */
    method CountAcked(target: int) returns (n: nat)
      ensures n == |set fd | fd in slaveConnections && slaveConnections[fd].replicaOffset >= target|
      ensures n == Acked(Offsets(slaveConnections), target)
    {
      ghost var known := Offsets(slaveConnections);
      var todo: set<int> := slaveConnections.Keys;
      n := 0;
      while todo != {}
        invariant todo <= slaveConnections.Keys
        invariant n == |set fd | fd in known && fd !in todo && known[fd] >= target|
        decreases todo
      {
        SomeMember(todo);
        var fd: int :| fd in todo;
        ghost var before := set f | f in known && f !in todo && known[f] >= target;
        ghost var after := set f | f in known && f !in todo - {fd} && known[f] >= target;
        assert after == if known[fd] >= target then before + {fd} else before;
        if slaveConnections[fd].replicaOffset >= target { n := n + 1; }
        todo := todo - {fd};
      }
      assert (set fd | fd in known && fd !in todo && known[fd] >= target) == set fd | fd in known && known[fd] >= target;
      assert (set fd | fd in slaveConnections && slaveConnections[fd].replicaOffset >= target) == set fd | fd in known && known[fd] >= target;
    }

    /** handle_wait: a count to reply with, or GETACK to every slave and one more waiting client. */
    method HandleWait(client: nat, needed: nat, ghost w: World) returns (reply: Option<nat>)
      requires Represents(w)
      modifies this`slaveConnections, this`blockedWaitClients
      ensures var n := |set fd | fd in old(slaveConnections) && old(slaveConnections)[fd].replicaOffset >= offset|;
              reply == if offset == 0 then Some(|old(slaveConnections)|) else if n >= needed then Some(n) else None
      ensures reply.Some? ==> slaveConnections == old(slaveConnections) && blockedWaitClients == old(blockedWaitClients)
      ensures reply.None? ==> slaveConnections == AllAppended(old(slaveConnections), Text(AskAck))
      ensures reply.None? ==> blockedWaitClients == old(blockedWaitClients) + [Wait(client, needed, offset)]
      ensures var u := Do(w, WaitCall(client, needed));
              && Represents(u)
              && u.told == w.told + if reply.Some? then [Told(client, reply.value, offset)] else []
    {
      hide Args, Request, Acked, GET_ACK_TEXT, ServesAll;
      ServesAllMore(slaveConnections, w.links, flushed, AskAck, 0);
      SameKeys(slaveConnections, w.links, flushed);
      OffsetsAreKnown(slaveConnections, w, flushed);
      if offset == 0 { return Some(|slaveConnections|); }
      var alreadyAcked := CountAcked(offset);
      if alreadyAcked >= needed { return Some(alreadyAcked); }
      Broadcast(GET_ACK_TEXT);
      blockedWaitClients := blockedWaitClients + [Wait(client, needed, offset)];
      return None;
    }

    /** check_blocked_wait_clients: the loop that erases while it iterates. */
    method CheckBlockedWaitClients() returns (told: seq<Told>)
      modifies this`blockedWaitClients
      ensures (told, blockedWaitClients) == Settle(old(blockedWaitClients), Offsets(slaveConnections))
      ensures RightlySettled(old(blockedWaitClients), Offsets(slaveConnections), told, blockedWaitClients)
    {
      hide Acked, RightlySettled, Settle;
      SettleIsRight(blockedWaitClients, Offsets(slaveConnections));
      SettleNone(Offsets(slaveConnections));
      ghost var waits, known := blockedWaitClients, Offsets(slaveConnections);
      ghost var seen := 0;
      var i := 0;
      told := [];
      assert waits[..0] == [];
      while i < |blockedWaitClients|
        invariant 0 <= i <= |blockedWaitClients| && 0 <= seen <= |waits|
        invariant blockedWaitClients[i..] == waits[seen..]
        invariant (told, blockedWaitClients[..i]) == Settle(waits[..seen], known)
        decreases |waits| - seen
      {
        var it := blockedWaitClients[i];
        assert it == blockedWaitClients[i..][0] == waits[seen];
        SettleNext(waits, seen, known);
        var acked := CountAcked(it.target);
        ghost var before := blockedWaitClients;
        if acked >= it.needed {
          told := told + [Told(it.client, acked, it.target)];
          blockedWaitClients := blockedWaitClients[..i] + blockedWaitClients[i + 1..];
          assert blockedWaitClients[..i] == before[..i] && blockedWaitClients[i..] == before[i..][1..];
        } else {
          i := i + 1;
          assert blockedWaitClients[..i] == before[..i - 1] + [it] && blockedWaitClients[i..] == before[i - 1..][1..];
        }
        seen := seen + 1;
        assert waits[seen..] == waits[seen - 1..][1..];
      }
      assert waits[..seen] == waits && blockedWaitClients[..i] == blockedWaitClients;
    }

    /** The ACK case of handle_replconf; only the offset of a slave is ever looked at. */
    method HandleAck(fd: int, ackOffset: int, ghost w: World) returns (told: seq<Told>)
      requires Represents(w)
      modifies this`slaveConnections, this`blockedWaitClients
      ensures slaveConnections == if fd in old(slaveConnections)
                                  then old(slaveConnections)[fd := old(slaveConnections)[fd].(replicaOffset := ackOffset)]
                                  else old(slaveConnections)
      ensures (told, blockedWaitClients) == Settle(old(blockedWaitClients), Offsets(slaveConnections))
      ensures RightlySettled(old(blockedWaitClients), Offsets(slaveConnections), told, blockedWaitClients)
      ensures fd in w.links && w.links[fd].acks != [] && ackOffset == w.links[fd].acks[0] ==>
                Represents(Do(w, AckArrives(fd))) && Do(w, AckArrives(fd)).told == w.told + told
    {
      hide Settle, RightlySettled;
      ghost var arrived := fd in w.links && w.links[fd].acks != [] && ackOffset == w.links[fd].acks[0];
      if fd in slaveConnections { slaveConnections := slaveConnections[fd := slaveConnections[fd].(replicaOffset := ackOffset)]; }
      if arrived {
        var l := w.links[fd];
        OffsetsAreKnown(slaveConnections, w.(links := w.links[fd := l.(acked := l.acks[0], acks := l.acks[1..])]), flushed);
      }
      told := CheckBlockedWaitClients();
    }

    /** check_and_expire_blocked_wait_clients, for the clients whose time is up. */
    method CheckAndExpire(expired: set<nat>, ghost w: World) returns (told: seq<Told>)
      requires Represents(w)
      modifies this`blockedWaitClients
      ensures (told, blockedWaitClients) == ExpireWaits(old(blockedWaitClients), Offsets(slaveConnections), expired)
      ensures RightlyExpired(old(blockedWaitClients), Offsets(slaveConnections), expired, told, blockedWaitClients)
      ensures Represents(Do(w, Expire(expired))) && Do(w, Expire(expired)).told == w.told + told
    {
      hide Acked, ServesAll, ExpireWaits, RightlyExpired;
      ExpiryIsRight(blockedWaitClients, Offsets(slaveConnections), expired);
      OffsetsAreKnown(slaveConnections, w, flushed);
      ghost var waits, known := blockedWaitClients, Offsets(slaveConnections);
      ghost var seen := 0;
      var i := 0;
      told := [];
      assert waits[..0] == [];
      NobodyExpires(known, expired);
      while i < |blockedWaitClients|
        invariant 0 <= i <= |blockedWaitClients| && 0 <= seen <= |waits|
        invariant blockedWaitClients[i..] == waits[seen..]
        invariant (told, blockedWaitClients[..i]) == ExpireWaits(waits[..seen], known, expired)
        decreases |waits| - seen
      {
        var it := blockedWaitClients[i];
        assert it == blockedWaitClients[i..][0] == waits[seen];
        NextExpires(waits, seen, known, expired);
        ghost var before := blockedWaitClients;
        if it.client in expired {
          var acked := CountAcked(it.target);
          told := told + [Told(it.client, acked, it.target)];
          blockedWaitClients := blockedWaitClients[..i] + blockedWaitClients[i + 1..];
          assert blockedWaitClients[..i] == before[..i] && blockedWaitClients[i..] == before[i..][1..];
        } else {
          i := i + 1;
          assert blockedWaitClients[..i] == before[..i - 1] + [it] && blockedWaitClients[i..] == before[i - 1..][1..];
        }
        seen := seen + 1;
        assert waits[seen..] == waits[seen - 1..][1..];
      }
      assert waits[..seen] == waits && blockedWaitClients[..i] == blockedWaitClients;
    }
  }

  // ----- both ends of one connection

  /** The master and one of its replicas, in the same world. */
  ghost predicate Joined(m: ReplicationManager, s: SlaveReplicationClient, fd: int, w: World)
    reads m, s
  { m.Represents(w) && fd in w.links && fd in m.flushed && s.Follows(w.links[fd], m.flushed[fd]) }

  /** What the master has written comes in at the replica. */
  method Deliver(m: ReplicationManager, s: SlaveReplicationClient, fd: int, ghost w: World)
    requires Joined(m, s, fd, w)
    modifies m, s
    ensures Joined(m, s, fd, w) && m.flushed == old(m.flushed)[fd := |w.links[fd].sent|]
  {
    hide SlaveReplicationClient.Follows, Texts;
    ghost var l, before := w.links[fd], m.flushed[fd];
    FollowsBounds(s, l, before);
    var text := m.Flush(fd, w);
    assert l.sent[before..|l.sent|] == l.sent[before..];
    s.Receive(text, l, before, |l.sent|);
  }

  lemma FollowsBounds(s: SlaveReplicationClient, l: Link, flushed: nat)
    requires s.Follows(l, flushed)
    ensures l.handled <= flushed <= |l.sent|
  {}

  /** The replica handles what has come in: the world goes through as many receptions. */
  method HandleIncoming(m: ReplicationManager, s: SlaveReplicationClient, fd: int, ghost w: World)
    returns (ghost events: seq<Event>)
    requires Joined(m, s, fd, w) && AllPrintable(w.links[fd].sent)
    modifies s
    ensures (forall e :: e in events ==> e == Event.Receive(fd)) && Joined(m, s, fd, Run(w, events))
    ensures Run(w, events).links[fd].handled == m.flushed[fd]
  {
    hide SlaveReplicationClient.Follows, HandleAll, Texts, Printable;
    ghost var l, upTo := w.links[fd], m.flushed[fd];
    FollowsBounds(s, l, upTo);
    s.ProcessReadBuffer(l, upTo);
    events := CaughtIsReceived(w, fd, upTo);
  }

  /** The replica's answer leaves for the master, which will read the acknowledged offset in it. */
  method Acknowledge(m: ReplicationManager, s: SlaveReplicationClient, fd: int, ghost w: World) returns (text: Bytes)
    requires Joined(m, s, fd, w)
    modifies s
    ensures text == AckBuffer(w.links[fd].replica.ack) && Joined(m, s, fd, Do(w, Event.Flush(fd)))
  {
    hide SlaveReplicationClient.Follows;
    ghost var l := w.links[fd];
    NothingWaits(s, l, m.flushed[fd]);
    text := s.SendAck(l, m.flushed[fd]);
    Unnoticed(s, l.(replica := l.replica.(ack := None)), Do(w, Event.Flush(fd)).links[fd], m.flushed[fd]);
  }

  lemma NothingWaits(s: SlaveReplicationClient, l: Link, flushed: nat)
    requires s.Follows(l, flushed)
    ensures l.replica.ack.None? ==> l.(replica := l.replica.(ack := None)) == l
  {}

  /** A replica does not notice what the master keeps of it, nor what the master has yet to write. */
  lemma Unnoticed(s: SlaveReplicationClient, l: Link, u: Link, flushed: nat)
    requires s.Follows(l, flushed) && u.replica == l.replica && u.handled == l.handled && l.sent <= u.sent
    ensures s.Follows(u, flushed)
  {
    assert u.sent[l.handled..flushed] == l.sent[l.handled..flushed];
  }

  /** Every step but the replica's own leaves it where it is; the master's methods represent those steps. */
  lemma OtherStepsAreUnnoticed(s: SlaveReplicationClient, w: World, e: Event, fd: int, flushed: nat)
    requires fd in w.links && s.Follows(w.links[fd], flushed) && e != Event.Receive(fd) && e != Event.Flush(fd)
    ensures fd in Do(w, e).links && s.Follows(Do(w, e).links[fd], flushed)
  {
    hide SlaveReplicationClient.Follows, Settle, ExpireWaits, Acked, Handle, Text;
    Unnoticed(s, w.links[fd], Do(w, e).links[fd], flushed);
  }
}
