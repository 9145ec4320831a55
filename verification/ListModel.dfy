/**
 * One list key of the database as values: its strings, and the queue of clients blocked
 * on it (src/db/PUSH, LPOP, BLPOP, LRANGE and src/db/db.cpp). ListCommands refines it.
 */
module ListModel {
  import opened Bytes
  import opened Sequences

  /**
   * A blocked BLPOP client. `arrival` numbers the clients that blocked on the key; it only
   * names the entry, the program does not store it. No deadline means a timeout of 0.
   */
  datatype Blocked = Blocked(arrival: nat, fd: int, deadline: Option<int>)

  /** is_expired. */
  predicate IsExpired(c: Blocked, now: int) { c.deadline.Some? && now >= c.deadline.value }

  /**
   * `list` is None when the store has no such key, or an object of another type (`other`). The list is
   * `counted` as long as its header says how many elements it has.
   */
  datatype KeyState = KeyState(list: Option<seq<Bytes>>, counted: bool, other: bool, queue: seq<Blocked>, arrived: nat)
  {
    function Strings(): seq<Bytes> { if list.Some? then list.value else [] }

    /** What the header says: 65535 stands for a count that is not known. */
    function Shown(): nat { if counted then |Strings()| else UINT16_MAX }
  }

  const FRESH := KeyState(None, true, false, [], 0)

  datatype Op = Push(values: seq<Bytes>, prepend: bool)
              | Lpop(count: Option<nat>)
              | Blpop(fd: int, deadline: Option<int>)
              | Lrange(start: int, stop: int)
              | Expire(now: int)

  /** What a command reports: values accepted, values handed out, clients answered. */
  datatype Event = Pushed(values: seq<Bytes>)
                 | Delivered(arrival: nat, value: Bytes)
                 | Popped(values: seq<Bytes>)
                 | TimedOut(arrival: nat)

  // ----- the commands

  /** One value more at the chosen end. */
  function Extended(list: seq<Bytes>, value: Bytes, prepend: bool): seq<Bytes> {
    if prepend then [value] + list else list + [value]
  }

  /** Pushing one value after the other. */
  function PushAll(list: seq<Bytes>, values: seq<Bytes>, prepend: bool): seq<Bytes>
    decreases |values|
  {
    if values == [] then list else PushAll(Extended(list, values[0], prepend), values[1..], prepend)
  }

  function Reversed(s: seq<Bytes>): seq<Bytes> { if s == [] then [] else Reversed(s[1..]) + [s[0]] }

  /** A list with other strings: a count of 65535 or more does not fit the header. */
  function Holding(st: KeyState, strings: seq<Bytes>): KeyState {
    st.(list := Some(strings), counted := st.counted && |strings| < UINT16_MAX)
  }

  /** A push of no value does not create the key. */
  function Grown(st: KeyState, values: seq<Bytes>, prepend: bool): KeyState {
    if values == [] then st else Holding(st, PushAll(st.Strings(), values, prepend))
  }

  /** Whether a push hands its first value to the client at the head of the queue. */
  predicate Hands(st: KeyState, values: seq<Bytes>) { st.queue != [] && values != [] }

  /** handle_push: with clients waiting, the first of them gets the first value. */
  function DoPush(st: KeyState, values: seq<Bytes>, prepend: bool): KeyState {
    if Hands(st, values) then Grown(st.(queue := st.queue[1..]), values[1..], prepend)
    else Grown(st, values, prepend)
  }

  /** The number that handle_push replies with: what the header says, or with a client waiting the number of values. */
  function PushReply(st: KeyState, values: seq<Bytes>, prepend: bool): nat {
    if Hands(st, values) then |values| else if values == [] then 0 else Grown(st, values, prepend).Shown()
  }

  function PushEvents(st: KeyState, values: seq<Bytes>): seq<Event> {
    [Pushed(values)] + if Hands(st, values) then [Delivered(st.queue[0].arrival, values[0])] else []
  }

  function Min(a: nat, b: nat): nat { if a < b then a else b }

  /** handle_lpop: the first `count` values, or as many as there are; 1 when no count is given. */
  function LpopTaken(st: KeyState, count: Option<nat>): seq<Bytes> {
    var s := st.Strings();
    s[..Min(if count.Some? then count.value else 1, |s|)]
  }

  function DoLpop(st: KeyState, count: Option<nat>): KeyState {
    if st.list.None? then st else st.(list := Some(st.list.value[|LpopTaken(st, count)|..]))
  }

  /** handle_blpop: an immediate pop, a null reply on a key of another type, or a place in the queue. */
  datatype BlpopReply = Value(value: Bytes) | NullReply | Waits

  function BlpopAnswer(st: KeyState): BlpopReply {
    if st.other then NullReply else if st.Strings() == [] then Waits else Value(st.Strings()[0])
  }

  function DoBlpop(st: KeyState, fd: int, deadline: Option<int>): KeyState {
    match BlpopAnswer(st)
    case NullReply => st
    case Waits => st.(queue := st.queue + [Blocked(st.arrived, fd, deadline)], arrived := st.arrived + 1)
    case Value(_) => st.(list := Some(st.Strings()[1..]))
  }

  /** check_and_expire_blocked_clients on this key's queue. */
  function Keep(queue: seq<Blocked>, now: int): seq<Blocked> {
    if queue == [] then []
    else (if IsExpired(queue[0], now) then [] else [queue[0]]) + Keep(queue[1..], now)
  }

  function Expired(queue: seq<Blocked>, now: int): seq<Blocked> {
    if queue == [] then []
    else (if IsExpired(queue[0], now) then [queue[0]] else []) + Expired(queue[1..], now)
  }

  function DoExpire(st: KeyState, now: int): KeyState { st.(queue := Keep(st.queue, now)) }

  function TimeoutEvents(queue: seq<Blocked>): seq<Event> {
    if queue == [] then [] else [TimedOut(queue[0].arrival)] + TimeoutEvents(queue[1..])
  }

  /** handle_lrange leaves the list alone, but finds out its length. */
  function DoLrange(st: KeyState): KeyState {
    if st.list.None? then st else st.(counted := st.counted || |st.Strings()| < UINT16_MAX)
  }

  // ----- runs

  function Step(st: KeyState, op: Op): (KeyState, seq<Event>) {
    match op
    case Push(values, prepend) => (DoPush(st, values, prepend), PushEvents(st, values))
    case Lpop(count) => (DoLpop(st, count), [Popped(LpopTaken(st, count))])
    case Blpop(fd, deadline) =>
      (DoBlpop(st, fd, deadline), match BlpopAnswer(st) case Value(v) => [Popped([v])] case _ => [])
    case Lrange(_, _) => (DoLrange(st), [])
    case Expire(now) => (DoExpire(st, now), TimeoutEvents(Expired(st.queue, now)))
  }

  function Run(ops: seq<Op>): (KeyState, seq<Event>) {
    if ops == [] then (FRESH, [])
    else
      var (st, log) := Run(ops[..|ops| - 1]);
      var (st', events) := Step(st, ops[|ops| - 1]);
      (st', log + events)
  }

  // ----- what the log says

  /** How often `x` occurs. */
  function Count<T(==)>(s: seq<T>, x: T): nat { multiset(s)[x] }

  function Pushes(e: Event, x: Bytes): nat { match e case Pushed(vs) => Count(vs, x) case _ => 0 }

  /** Values leave by being popped or by being handed to a blocked client. */
  function Takes(e: Event, x: Bytes): nat {
    match e
    case Popped(vs) => Count(vs, x)
    case Delivered(_, v) => Count([v], x)
    case _ => 0
  }

  /** Blocked clients are answered with a value or with a timeout. */
  function Answers(e: Event, a: nat): nat {
    match e
    case Delivered(b, _) => Count([b], a)
    case TimedOut(b) => Count([b], a)
    case _ => 0
  }

  function Serves(e: Event): seq<nat> { match e case Delivered(a, _) => [a] case _ => [] }

  function PushedIn(log: seq<Event>, x: Bytes): nat {
    if log == [] then 0 else Pushes(log[0], x) + PushedIn(log[1..], x)
  }

  function TakenIn(log: seq<Event>, x: Bytes): nat {
    if log == [] then 0 else Takes(log[0], x) + TakenIn(log[1..], x)
  }

  function AnsweredIn(log: seq<Event>, a: nat): nat {
    if log == [] then 0 else Answers(log[0], a) + AnsweredIn(log[1..], a)
  }

  /** The blocked clients that got a value, in the order in which they got it. */
  function ServedIn(log: seq<Event>): seq<nat> {
    if log == [] then [] else Serves(log[0]) + ServedIn(log[1..])
  }

  lemma {:induction false} ValuesConcat(a: seq<Event>, b: seq<Event>, x: Bytes)
    ensures PushedIn(a + b, x) == PushedIn(a, x) + PushedIn(b, x)
    ensures TakenIn(a + b, x) == TakenIn(a, x) + TakenIn(b, x)
  {
    if a == [] {
      assert a + b == b;
    } else {
      assert (a + b)[1..] == a[1..] + b;
      ValuesConcat(a[1..], b, x);
    }
  }

  lemma {:induction false} AnswersConcat(a: seq<Event>, b: seq<Event>, client: nat)
    ensures AnsweredIn(a + b, client) == AnsweredIn(a, client) + AnsweredIn(b, client)
  {
    if a == [] {
      assert a + b == b;
    } else {
      assert (a + b)[1..] == a[1..] + b;
      AnswersConcat(a[1..], b, client);
    }
  }

  lemma {:induction false} ServedConcat(a: seq<Event>, b: seq<Event>)
    ensures ServedIn(a + b) == ServedIn(a) + ServedIn(b)
  {
    if a == [] {
      assert a + b == b;
    } else {
      assert (a + b)[1..] == a[1..] + b;
      ServedConcat(a[1..], b);
    }
  }

  lemma CountConcat<T>(a: seq<T>, b: seq<T>, x: T)
    ensures Count(a + b, x) == Count(a, x) + Count(b, x)
  {}

  lemma OneEvent(e: Event)
    ensures forall x :: PushedIn([e], x) == Pushes(e, x)
    ensures forall x :: TakenIn([e], x) == Takes(e, x)
    ensures forall a :: AnsweredIn([e], a) == Answers(e, a)
    ensures ServedIn([e]) == Serves(e)
  {
    assert [e][1..] == [];
    assert Serves(e) + [] == Serves(e);
  }

  function Arrivals(queue: seq<Blocked>): seq<nat> {
    seq(|queue|, i requires 0 <= i < |queue| => queue[i].arrival)
  }

  predicate Increasing(s: seq<nat>) { forall i, j :: 0 <= i < j < |s| ==> s[i] < s[j] }

  predicate Below(s: seq<nat>, bound: nat) { forall i :: 0 <= i < |s| ==> s[i] < bound }

  // ----- lemmas about the commands

  lemma {:induction false} PushAllIsConcat(list: seq<Bytes>, values: seq<Bytes>)
    ensures PushAll(list, values, false) == list + values
    ensures PushAll(list, values, true) == Reversed(values) + list
    decreases |values|
  {
    if values == [] {
      assert list + values == list;
    } else {
      PushAllIsConcat(list + [values[0]], values[1..]);
      PushAllIsConcat([values[0]] + list, values[1..]);
      assert list + [values[0]] + values[1..] == list + values;
      assert Reversed(values[1..]) + ([values[0]] + list) == Reversed(values) + list;
    }
  }

  lemma {:induction false} PushAllCount(list: seq<Bytes>, values: seq<Bytes>, prepend: bool, x: Bytes)
    ensures Count(PushAll(list, values, prepend), x) == Count(list, x) + Count(values, x)
    decreases |values|
  {
    if values != [] {
      var v := [values[0]];
      assert v + values[1..] == values;
      CountConcat(v, values[1..], x);
      CountConcat(list, v, x);
      CountConcat(v, list, x);
      PushAllCount(Extended(list, values[0], prepend), values[1..], prepend, x);
    }
  }

  lemma ArrivalsConcat(a: seq<Blocked>, b: seq<Blocked>)
    ensures Arrivals(a + b) == Arrivals(a) + Arrivals(b)
  {}

  lemma ArrivalsOne(c: Blocked)
    ensures Arrivals([c]) == [c.arrival]
  {}

  lemma ArrivalsAppend(q: seq<Blocked>, c: Blocked)
    ensures Arrivals(q + [c]) == Arrivals(q) + [c.arrival]
  {}

  lemma CountOne<T>(y: T, x: T)
    ensures Count([y], x) == if x == y then 1 else 0
  {}

  lemma CountNone<T>(x: T)
    ensures Count([], x) == 0
  {}

  lemma CountArrivals(c: Blocked, q: seq<Blocked>, a: nat)
    ensures Count(Arrivals([c] + q), a) == Count([c.arrival], a) + Count(Arrivals(q), a)
  {
    ArrivalsConcat([c], q);
    assert Arrivals([c]) == [c.arrival];
    CountConcat([c.arrival], Arrivals(q), a);
  }

  /** Expiry sorts every waiting client into exactly one of: answered, still waiting. */
  lemma {:induction false} KeepSplits(queue: seq<Blocked>, now: int, a: nat)
    ensures Count(Arrivals(queue), a) ==
            AnsweredIn(TimeoutEvents(Expired(queue, now)), a) + Count(Arrivals(Keep(queue, now)), a)
  {
    if queue != [] {
      hide Count, Arrivals, AnsweredIn, IsExpired, TimeoutEvents;
      var c, q := queue[0], queue[1..];
      KeepSplits(q, now, a);
      assert [c] + q == queue;
      CountArrivals(c, q, a);
      if IsExpired(c, now) {
        TimeoutFirst(c, Expired(q, now), a);
        assert [] + Keep(q, now) == Keep(q, now);
      } else {
        CountArrivals(c, Keep(q, now), a);
        assert [] + Expired(q, now) == Expired(q, now);
      }
    }
  }

  lemma TimeoutFirst(c: Blocked, rest: seq<Blocked>, a: nat)
    ensures AnsweredIn(TimeoutEvents([c] + rest), a) == Count([c.arrival], a) + AnsweredIn(TimeoutEvents(rest), a)
  {
    assert ([c] + rest)[1..] == rest;
    assert TimeoutEvents([c] + rest)[1..] == TimeoutEvents(rest);
  }

  lemma {:induction false} TimeoutsMoveNothing(queue: seq<Blocked>)
    ensures forall x :: PushedIn(TimeoutEvents(queue), x) == TakenIn(TimeoutEvents(queue), x) == 0
    ensures ServedIn(TimeoutEvents(queue)) == []
  {
    if queue != [] {
      TimeoutsMoveNothing(queue[1..]);
      assert TimeoutEvents(queue)[1..] == TimeoutEvents(queue[1..]);
    }
  }

  lemma {:induction false} ExpiryAppend(queue: seq<Blocked>, c: Blocked, now: int)
    ensures Keep(queue + [c], now) == Keep(queue, now) + if IsExpired(c, now) then [] else [c]
    ensures Expired(queue + [c], now) == Expired(queue, now) + if IsExpired(c, now) then [c] else []
  {
    if queue != [] {
      assert (queue + [c])[1..] == queue[1..] + [c];
      ExpiryAppend(queue[1..], c, now);
    } else {
      assert ([] + [c])[1..] == [];
    }
  }

  /**
   * Expiry answers exactly the clients with a deadline that is not after `now`, and keeps the others, both in
   * the order of the queue: `gone` and `stay` are their positions.
   */
  lemma {:induction false} ExpiryMeans(queue: seq<Blocked>, now: int) returns (gone: seq<nat>, stay: seq<nat>)
    ensures Selects(queue, gone, Expired(queue, now)) && Selects(queue, stay, Keep(queue, now))
    ensures forall p: nat :: p in gone <==> p < |queue| && queue[p].deadline.Some? && queue[p].deadline.value <= now
    ensures forall p: nat :: p in stay <==> p < |queue| && (queue[p].deadline.None? || now < queue[p].deadline.value)
  {
    if queue == [] {
      gone, stay := [], [];
    } else {
      var front, c := queue[..|queue| - 1], queue[|queue| - 1];
      var g, s := ExpiryMeans(front, now);
      assert queue == front + [c];
      ExpiryAppend(front, c, now);
      hide Keep, Expired, Selects;
      SelectsLess(front, g, Expired(front, now), c);
      SelectsLess(front, s, Keep(front, now), c);
      SelectsMore(front, g, Expired(front, now), c);
      SelectsMore(front, s, Keep(front, now), c);
      if c.deadline.Some? && c.deadline.value <= now {
        gone, stay := g + [|front|], s;
        assert Keep(front, now) + [] == Keep(front, now);
      } else {
        gone, stay := g, s + [|front|];
        assert Expired(front, now) + [] == Expired(front, now);
      }
    }
  }

  /** Whom expiry answers and whom it keeps. */
  lemma ExpiryMembers(queue: seq<Blocked>, now: int)
    ensures forall c :: c in Expired(queue, now) <==> c in queue && c.deadline.Some? && c.deadline.value <= now
    ensures forall c :: c in Keep(queue, now) <==> c in queue && (c.deadline.None? || now < c.deadline.value)
  {
    hide Keep, Expired;
    var gone, stay := ExpiryMeans(queue, now);
    forall c ensures c in Expired(queue, now) <==> c in queue && c.deadline.Some? && c.deadline.value <= now {
      SelectedMembers(queue, gone, Expired(queue, now), c);
      if c in queue && c.deadline.Some? && c.deadline.value <= now {
        var p :| 0 <= p < |queue| && queue[p] == c;
        assert p in gone;
      }
    }
    forall c ensures c in Keep(queue, now) <==> c in queue && (c.deadline.None? || now < c.deadline.value) {
      SelectedMembers(queue, stay, Keep(queue, now), c);
      if c in queue && (c.deadline.None? || now < c.deadline.value) {
        var p :| 0 <= p < |queue| && queue[p] == c;
        assert p in stay;
      }
    }
  }

  /** Filtering the queue drops elements and keeps the order. */
  lemma {:induction false} KeepIncreasing(served: seq<nat>, queue: seq<Blocked>, now: int, bound: nat)
    requires Increasing(served + Arrivals(queue)) && Below(served + Arrivals(queue), bound)
    ensures Increasing(served + Arrivals(Keep(queue, now))) && Below(served + Arrivals(Keep(queue, now)), bound)
    decreases |queue|
  {
    if queue != [] {
      var c, q := queue[0], queue[1..];
      assert [c] + q == queue;
      ArrivalsConcat([c], q);
      var s := served + Arrivals(queue);
      if IsExpired(c, now) {
        var t := served + Arrivals(q);
        assert forall i :: 0 <= i < |t| ==> t[i] == s[if i < |served| then i else i + 1];
        KeepIncreasing(served, q, now, bound);
        assert [] + Keep(q, now) == Keep(q, now);
      } else {
        assert served + [c.arrival] + Arrivals(q) == s;
        KeepIncreasing(served + [c.arrival], q, now, bound);
        ArrivalsConcat([c], Keep(q, now));
        assert served + Arrivals(Keep(queue, now)) == served + [c.arrival] + Arrivals(Keep(q, now));
      }
    }
  }

  lemma PushLog(st: KeyState, values: seq<Bytes>, x: Bytes, a: nat)
    ensures PushedIn(PushEvents(st, values), x) == Count(values, x)
    ensures TakenIn(PushEvents(st, values), x) == if Hands(st, values) then Count([values[0]], x) else 0
    ensures AnsweredIn(PushEvents(st, values), a) == if Hands(st, values) then Count([st.queue[0].arrival], a) else 0
    ensures ServedIn(PushEvents(st, values)) == if Hands(st, values) then [st.queue[0].arrival] else []
  {
    var events := PushEvents(st, values);
    OneEvent(Pushed(values));
    if Hands(st, values) {
      OneEvent(events[1]);
      assert events[1..] == [events[1]];
    } else {
      assert events == [Pushed(values)];
    }
  }

  // ----- one command

  lemma GrownKeepsQueue(st: KeyState, values: seq<Bytes>, prepend: bool)
    ensures Grown(st, values, prepend).queue == st.queue && Grown(st, values, prepend).arrived == st.arrived
    ensures Grown(st, values, prepend).Strings() == PushAll(st.Strings(), values, prepend)
  {}

  lemma PushConserves(st: KeyState, values: seq<Bytes>, prepend: bool, x: Bytes)
    ensures var events := PushEvents(st, values);
            PushedIn(events, x) + Count(st.Strings(), x) == TakenIn(events, x) + Count(DoPush(st, values, prepend).Strings(), x)
  {
    hide Count, PushAll, PushEvents, Grown;
    PushLog(st, values, x, 0);
    if Hands(st, values) {
      GrownKeepsQueue(st.(queue := st.queue[1..]), values[1..], prepend);
      PushAllCount(st.Strings(), values[1..], prepend, x);
      assert [values[0]] + values[1..] == values;
      CountConcat([values[0]], values[1..], x);
    } else {
      GrownKeepsQueue(st, values, prepend);
      PushAllCount(st.Strings(), values, prepend, x);
    }
  }

  lemma BlpopConserves(st: KeyState, fd: int, deadline: Option<int>, x: Bytes)
    ensures BlpopAnswer(st).Value? ==>
              Count(st.Strings(), x) == Count([BlpopAnswer(st).value], x) + Count(DoBlpop(st, fd, deadline).Strings(), x)
    ensures !BlpopAnswer(st).Value? ==> DoBlpop(st, fd, deadline).Strings() == st.Strings()
  {
    hide Count;
    if BlpopAnswer(st).Value? {
      assert st.Strings()[..1] == [st.Strings()[0]];
      SplitCount(st.Strings(), 1, x);
    }
  }

  /** What comes in and what was stored is what goes out and what is stored after. */
  lemma StepConserves(st: KeyState, op: Op, x: Bytes)
    ensures var (st', events) := Step(st, op);
            PushedIn(events, x) + Count(st.Strings(), x) == TakenIn(events, x) + Count(st'.Strings(), x)
  {
    hide Count, Keep, Expired, TimeoutEvents, PushEvents, DoPush, DoBlpop, BlpopAnswer;
    match op
    case Push(values, prepend) => PushConserves(st, values, prepend, x);
    case Lpop(count) =>
      OneEvent(Popped(LpopTaken(st, count)));
      CountNone(x);
      SplitCount(st.Strings(), |LpopTaken(st, count)|, x);
    case Blpop(fd, deadline) =>
      BlpopConserves(st, fd, deadline, x);
      if BlpopAnswer(st).Value? { OneEvent(Popped([BlpopAnswer(st).value])); }
    case Lrange(_, _) =>
    case Expire(now) => TimeoutsMoveNothing(Expired(st.queue, now));
  }

  lemma SplitCount<T>(s: seq<T>, n: nat, x: T)
    requires n <= |s|
    ensures Count(s, x) == Count(s[..n], x) + Count(s[n..], x)
  {
    assert s == s[..n] + s[n..];
  }

  lemma PushAnswers(st: KeyState, values: seq<Bytes>, prepend: bool, a: nat)
    ensures var st' := DoPush(st, values, prepend);
            && st'.arrived == st.arrived
            && AnsweredIn(PushEvents(st, values), a) + Count(Arrivals(st'.queue), a) == Count(Arrivals(st.queue), a)
  {
    hide Count, Grown, PushEvents, Arrivals;
    PushLog(st, values, [], a);
    if Hands(st, values) {
      GrownKeepsQueue(st.(queue := st.queue[1..]), values[1..], prepend);
      assert [st.queue[0]] + st.queue[1..] == st.queue;
      CountArrivals(st.queue[0], st.queue[1..], a);
    } else {
      GrownKeepsQueue(st, values, prepend);
    }
  }

  lemma BlpopAnswers(st: KeyState, fd: int, deadline: Option<int>, a: nat)
    ensures var st' := DoBlpop(st, fd, deadline);
            && st.arrived <= st'.arrived <= st.arrived + 1
            && Count(Arrivals(st'.queue), a) == Count(Arrivals(st.queue), a) + (if st.arrived <= a < st'.arrived then 1 else 0)
  {
    hide Count, Arrivals;
    if BlpopAnswer(st).Waits? {
      ArrivalsAppend(st.queue, Blocked(st.arrived, fd, deadline));
      CountConcat(Arrivals(st.queue), [st.arrived], a);
      CountOne(st.arrived, a);
    }
  }

  /** The waiting clients are those from before and the new arrival, less those answered. */
  lemma StepAnswers(st: KeyState, op: Op, a: nat)
    ensures var (st', events) := Step(st, op);
            && st.arrived <= st'.arrived <= st.arrived + 1
            && AnsweredIn(events, a) + Count(Arrivals(st'.queue), a)
               == Count(Arrivals(st.queue), a) + (if st.arrived <= a < st'.arrived then 1 else 0)
  {
    hide Count, Keep, Expired, TimeoutEvents, PushEvents, Arrivals, DoPush, DoBlpop, BlpopAnswer;
    match op
    case Push(values, prepend) => PushAnswers(st, values, prepend, a);
    case Lpop(count) => OneEvent(Popped(LpopTaken(st, count)));
    case Blpop(fd, deadline) =>
      BlpopAnswers(st, fd, deadline, a);
      if BlpopAnswer(st).Value? { OneEvent(Popped([BlpopAnswer(st).value])); }
    case Lrange(_, _) =>
    case Expire(now) => KeepSplits(st.queue, now, a);
  }

  ghost predicate Ordered(order: seq<nat>, bound: nat) { Increasing(order) && Below(order, bound) }

  lemma PushServesInOrder(st: KeyState, values: seq<Bytes>, prepend: bool, served: seq<nat>)
    requires Ordered(served + Arrivals(st.queue), st.arrived)
    ensures DoPush(st, values, prepend).arrived == st.arrived
    ensures Ordered(served + ServedIn(PushEvents(st, values)) + Arrivals(DoPush(st, values, prepend).queue), st.arrived)
  {
    hide Ordered, PushEvents, Arrivals, ServedIn, Grown;
    PushLog(st, values, [], 0);
    if Hands(st, values) {
      var c, q := st.queue[0], st.queue[1..];
      GrownKeepsQueue(st.(queue := q), values[1..], prepend);
      assert [c] + q == st.queue;
      ArrivalsConcat([c], q);
      ArrivalsOne(c);
      assert served + [c.arrival] + Arrivals(q) == served + ([c.arrival] + Arrivals(q));
    } else {
      GrownKeepsQueue(st, values, prepend);
      assert served + [] == served;
    }
  }

  lemma BlpopServesInOrder(st: KeyState, fd: int, deadline: Option<int>, served: seq<nat>)
    requires Ordered(served + Arrivals(st.queue), st.arrived)
    ensures Ordered(served + Arrivals(DoBlpop(st, fd, deadline).queue), DoBlpop(st, fd, deadline).arrived)
  {
    hide Arrivals;
    if BlpopAnswer(st).Waits? {
      ArrivalsAppend(st.queue, Blocked(st.arrived, fd, deadline));
      assert served + (Arrivals(st.queue) + [st.arrived]) == served + Arrivals(st.queue) + [st.arrived];
      AppendIncreasing(served + Arrivals(st.queue), st.arrived);
    }
  }

  /** The order of service survives, whoever was served before. */
  lemma StepServesInOrder(st: KeyState, op: Op, served: seq<nat>)
    requires Ordered(served + Arrivals(st.queue), st.arrived)
    ensures var (st', events) := Step(st, op); Ordered(served + ServedIn(events) + Arrivals(st'.queue), st'.arrived)
  {
    hide Ordered, Arrivals, ServedIn, PushEvents, Keep, Expired, TimeoutEvents, DoPush;
    assert served + [] == served;
    match op
    case Push(values, prepend) => PushServesInOrder(st, values, prepend, served);
    case Lpop(count) => PoppingServesNobody(LpopTaken(st, count));
    case Blpop(fd, deadline) =>
      BlpopServesInOrder(st, fd, deadline, served);
      if BlpopAnswer(st).Value? { PoppingServesNobody([BlpopAnswer(st).value]); } else { ServedNobody(); }
    case Lrange(_, _) => ServedNobody();
    case Expire(now) =>
      TimeoutsMoveNothing(Expired(st.queue, now));
      ExpiryKeepsOrder(served, st.queue, now, st.arrived);
  }

  lemma ServedNobody()
    ensures ServedIn([]) == []
  {}

  lemma PoppingServesNobody(values: seq<Bytes>)
    ensures ServedIn([Popped(values)]) == []
  {
    OneEvent(Popped(values));
  }

  lemma ExpiryKeepsOrder(served: seq<nat>, queue: seq<Blocked>, now: int, bound: nat)
    requires Ordered(served + Arrivals(queue), bound)
    ensures Ordered(served + Arrivals(Keep(queue, now)), bound)
  {
    hide Arrivals, Keep;
    KeepIncreasing(served, queue, now, bound);
  }

  lemma AppendIncreasing(s: seq<nat>, n: nat)
    requires Increasing(s) && Below(s, n)
    ensures Increasing(s + [n]) && Below(s + [n], n + 1)
  {}

  // ----- every run

  /**
   * Over every run of pushes, pops, blocking pops and expiries on a key, what was pushed is
   * what was delivered to blocked clients, what was popped and what is still stored.
   */
  lemma {:induction false} EveryRunConserves(ops: seq<Op>, x: Bytes)
    ensures var (st, log) := Run(ops); PushedIn(log, x) == TakenIn(log, x) + Count(st.Strings(), x)
  {
    if ops != [] {
      var before, op := ops[..|ops| - 1], ops[|ops| - 1];
      EveryRunConserves(before, x);
      StepConserves(Run(before).0, op, x);
      ValuesConcat(Run(before).1, Step(Run(before).0, op).1, x);
    }
  }

  /**
   * Over every run, each of the clients 0..arrived-1 that ever blocked is either still waiting or has been
   * answered, by value or by timeout, and exactly once.
   */
  lemma {:induction false} EveryRunAnswersOnce(ops: seq<Op>, client: nat)
    ensures var (st, log) := Run(ops);
            AnsweredIn(log, client) + Count(Arrivals(st.queue), client) == if client < st.arrived then 1 else 0
  {
    if ops != [] {
      var before, op := ops[..|ops| - 1], ops[|ops| - 1];
      EveryRunAnswersOnce(before, client);
      StepAnswers(Run(before).0, op, client);
      AnswersConcat(Run(before).1, Step(Run(before).0, op).1, client);
    }
  }

  /**
   * Over every run, values go to waiting clients in their order of arrival, whatever timed
   * out in between: whoever still waits arrived after everyone who was served.
   */
  lemma {:induction false} EveryRunServesInOrder(ops: seq<Op>)
    ensures var (st, log) := Run(ops);
            Ordered(ServedIn(log) + Arrivals(st.queue), st.arrived)
  {
    if ops != [] {
      var before, op := ops[..|ops| - 1], ops[|ops| - 1];
      EveryRunServesInOrder(before);
      StepServesInOrder(Run(before).0, op, ServedIn(Run(before).1));
      ServedConcat(Run(before).1, Step(Run(before).0, op).1);
    }
  }

  lemma {:induction false} PushAllLength(list: seq<Bytes>, values: seq<Bytes>, prepend: bool)
    ensures |PushAll(list, values, prepend)| == |list| + |values|
    decreases |values|
  {
    if values != [] { PushAllLength(Extended(list, values[0], prepend), values[1..], prepend); }
  }

  /** Pushing several values is pushing the first and then the others. */
  lemma GrownStep(st: KeyState, values: seq<Bytes>, prepend: bool)
    requires values != []
    ensures Grown(Holding(st, Extended(st.Strings(), values[0], prepend)), values[1..], prepend) == Grown(st, values, prepend)
  {
    PushAllLength(Extended(st.Strings(), values[0], prepend), values[1..], prepend);
  }

  /**
   * Over every run in which the list stays below 65535 elements, the header says how many there are, so that
   * every push is answered with the length of the list.
   */
  lemma {:induction false} EveryRunKnowsTheLength(ops: seq<Op>)
    requires forall i :: 0 <= i <= |ops| ==> |Run(ops[..i]).0.Strings()| < UINT16_MAX
    ensures Run(ops).0.Shown() == |Run(ops).0.Strings()|
    ensures Run(ops).0.counted
  {
    assert ops[..|ops|] == ops;
    if ops != [] {
      var before := ops[..|ops| - 1];
      forall i | 0 <= i <= |before| ensures |Run(before[..i]).0.Strings()| < UINT16_MAX { assert before[..i] == ops[..i]; }
      EveryRunKnowsTheLength(before);
      hide PushAll, Keep, Expired;
    }
  }

  // ----- deadlines over every run

  /** The command that made a client wait: BLPOP with its deadline, as the a-th client that blocked on the key. */
  predicate BlockedAt(ops: seq<Op>, i: nat, a: nat) {
    i < |ops| && ops[i].Blpop? && Run(ops[..i]).0.arrived == a && Run(ops[..i + 1]).0.arrived == a + 1
  }

  lemma BlockedBefore(ops: seq<Op>, more: seq<Op>, i: nat, a: nat)
    requires BlockedAt(ops, i, a)
    ensures BlockedAt(ops + more, i, a) && (ops + more)[i] == ops[i]
  {
    hide Run;
    assert (ops + more)[..i] == ops[..i] && (ops + more)[..i + 1] == ops[..i + 1];
  }

  /** Who waits after a command: who waited before, or the client of this very BLPOP. */
  lemma StepKeepsClients(st: KeyState, op: Op, c: Blocked)
    requires c in Step(st, op).0.queue
    ensures c in st.queue || (op.Blpop? && c == Blocked(st.arrived, c.fd, op.deadline) && Step(st, op).0.arrived == st.arrived + 1)
  {
    hide Keep, Expired, Grown;
    match op
    case Push(values, prepend) =>
      GrownKeepsQueue(st, values, prepend);
      if Hands(st, values) { GrownKeepsQueue(st.(queue := st.queue[1..]), values[1..], prepend); }
    case Lpop(_) =>
    case Blpop(_, _) =>
    case Lrange(_, _) =>
    case Expire(now) => ExpiryMembers(st.queue, now);
  }

  /** Over every run, whoever waits does so with the deadline of the BLPOP that made it wait. */
  lemma {:induction false} EveryRunKeepsDeadlines(ops: seq<Op>, c: Blocked) returns (i: nat)
    requires c in Run(ops).0.queue
    ensures BlockedAt(ops, i, c.arrival) && ops[i].deadline == c.deadline
  {
    var before, op := ops[..|ops| - 1], ops[|ops| - 1];
    assert ops == before + [op] && ops[..|ops|] == ops;
    StepKeepsClients(Run(before).0, op, c);
    if c in Run(before).0.queue {
      i := EveryRunKeepsDeadlines(before, c);
      BlockedBefore(before, [op], i, c.arrival);
    } else {
      i := |before|;
      assert ops[..i] == before;
    }
  }

  lemma {:induction false} TimedOutOnes(queue: seq<Blocked>, a: nat)
    ensures TimedOut(a) in TimeoutEvents(queue) <==> exists c :: c in queue && c.arrival == a
  {
    if queue != [] { TimedOutOnes(queue[1..], a); }
  }

  /**
   * Over every run no client is timed out before its deadline, and none that has no deadline: a timeout happens
   * in an expiry check whose clock is at or past the deadline of the BLPOP that made the client wait.
   */
  lemma EveryRunTimesOutLate(ops: seq<Op>, j: nat, a: nat) returns (i: nat)
    requires j < |ops| && TimedOut(a) in Step(Run(ops[..j]).0, ops[j]).1
    ensures i < j && BlockedAt(ops, i, a)
    ensures ops[j].Expire? && ops[i].deadline.Some? && ops[i].deadline.value <= ops[j].now
  {
    hide Run, Keep, Expired;
    var st := Run(ops[..j]).0;
    TimeoutsAreExpiries(st, ops[j], a);
    TimedOutOnes(Expired(st.queue, ops[j].now), a);
    var c :| c in Expired(st.queue, ops[j].now) && c.arrival == a;
    ExpiryMembers(st.queue, ops[j].now);
    i := EveryRunKeepsDeadlines(ops[..j], c);
    BlockedBefore(ops[..j], ops[j..], i, a);
    assert ops[..j] + ops[j..] == ops;
  }

  lemma TimeoutsAreExpiries(st: KeyState, op: Op, a: nat)
    requires TimedOut(a) in Step(st, op).1
    ensures op.Expire?
  {}

  /** After an expiry check nobody waits any longer whose deadline has come. */
  lemma EveryRunAnswersInTime(ops: seq<Op>, now: int)
    ensures forall c :: c in Run(ops + [Expire(now)]).0.queue ==> c.deadline.None? || now < c.deadline.value
  {
    hide Keep, Expired;
    var more := ops + [Expire(now)];
    assert more[..|more| - 1] == ops;
    ExpiryMembers(Run(ops).0.queue, now);
  }
}
