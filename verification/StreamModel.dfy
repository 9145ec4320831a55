/**
 * What XADD and XREAD do to one stream key, as a value, and what holds over every run
 * (src/db/XADD/xadd_db.cpp, src/db/XREAD/xread_db.cpp, src/db/db.cpp).
 */
module StreamModel {
  import opened Bytes
  import opened Decimal
  import opened StreamIds
  import opened StreamLog

  /** The text `$`: only what is added from now on. */
  const NEWEST: Bytes := [DOLLAR]

  /** A BlockedXreadClient: who waits and the text that is kept as its stream_id. */
  datatype Waiter = Waiter(client: nat, text: Bytes)

  /** A stream key: whether the stream exists, its log, and the queue of blocked_xread_keys. */
  datatype State = State(present: bool, log: Log, waiting: seq<Waiter>)

  const FRESH := State(false, [], [])

  /** The text that write_xread_response searches from. */
  function Resumed(text: Bytes): Bytes { if text == NEWEST then ToText(ZERO_ID) else text }

  /** The records that a reader gets from a text: all after it, none if it is malformed. */
  function Served(log: Log, text: Bytes): Log {
    match SearchID(text, false)
    case None => []
    case Some(id) => After(log, id)
  }

  /** A reply to a client; without records it is the null array. */
  datatype Reply = Reply(client: nat, records: Log)

  function Woken(log: Log, waiting: seq<Waiter>): (r: seq<Reply>)
    ensures |r| == |waiting|
  {
    if waiting == [] then []
    else [Reply(waiting[0].client, Served(log, Resumed(waiting[0].text)))] + Woken(log, waiting[1..])
  }

  predicate Accepts(s: State, a: Attempt) { Judge(a.text, LastOf(s.log), a.now).OK? }

  function Created(s: State, a: Attempt): Record
    requires Accepts(s, a)
  { Record(InsertID(a.text, LastOf(s.log), a.now).value, a.payload) }

  /** handle_xadd: an accepted record wakes the whole queue. */
  function DoXadd(s: State, a: Attempt): State {
    var log := Add(s.log, a);
    State(true, log, if Accepts(s, a) then [] else s.waiting)
  }

  function XaddReplies(s: State, a: Attempt): seq<Reply> {
    if Accepts(s, a) then Woken(Add(s.log, a), s.waiting) else []
  }

  /** Whether handle_xread blocks the client, and on which text. */
  function BlocksOn(s: State, text: Bytes, blocking: bool): Option<Bytes> {
    if !blocking then None
    else if text == NEWEST then Some(if s.present then ToText(LastOf(s.log)) else text)
    else if Served(s.log, text) == [] then Some(text)
    else None
  }

  function DoXread(s: State, client: nat, text: Bytes, blocking: bool): State {
    match BlocksOn(s, text, blocking)
    case None => s
    case Some(t) => s.(waiting := s.waiting + [Waiter(client, t)])
  }

  /** The queue filter of check_and_expire_blocked_clients. */
  function Remaining(waiting: seq<Waiter>, expired: set<nat>): seq<Waiter> {
    if waiting == [] then []
    else (if waiting[0].client in expired then [] else [waiting[0]]) + Remaining(waiting[1..], expired)
  }

  /** And whom it answers with the null array. */
  function Gone(waiting: seq<Waiter>, expired: set<nat>): seq<Waiter> {
    if waiting == [] then []
    else (if waiting[0].client in expired then [waiting[0]] else []) + Gone(waiting[1..], expired)
  }

  datatype Step = Xadd(a: Attempt) | Xread(client: nat, text: Bytes, blocking: bool) | Timeout(expired: set<nat>)

  function Do(s: State, step: Step): State {
    match step
    case Xadd(a) => DoXadd(s, a)
    case Xread(client, text, blocking) => DoXread(s, client, text, blocking)
    case Timeout(expired) => s.(waiting := Remaining(s.waiting, expired))
  }

  function RunSteps(s: State, steps: seq<Step>): State
    decreases steps
  {
    if steps == [] then s else RunSteps(Do(s, steps[0]), steps[1..])
  }

  // ----- a log read from a point

  lemma AfterAppend(log: Log, r: Record, id: StreamID)
    ensures After(log + [r], id) == After(log, id) + if r.id.Greater(id) then [r] else []
  {
    BetweenConcat(log, [r], id, MAX_ID, true);
    assert Between([r], id, MAX_ID, true) == if r.id.Greater(id) then [r] else [];
  }

  lemma AfterLast(log: Log)
    requires Increasing(log)
    ensures After(log, LastOf(log)) == []
  {
    BetweenNone(log, LastOf(log), MAX_ID, true);
  }

  /** What is after an identifier ends with the last record of the log. */
  lemma AfterEndsAtLast(log: Log, id: StreamID)
    ensures After(log, id) != [] ==> LastOf(After(log, id)).Greater(id)
    ensures Increasing(log) && After(log, id) != [] ==> LastOf(After(log, id)) == LastOf(log)
    ensures LastOf(log).Greater(id) ==> After(log, id) != []
  {
    if log != [] {
      var front := log[..|log| - 1];
      assert log == front + [log[|log| - 1]];
      AfterAppend(front, log[|log| - 1], id);
      if After(log, id) != [] {
        var last := After(log, id)[|After(log, id)| - 1];
        BetweenMembers(log, id, MAX_ID, true, last);
        assert last in After(log, id);
        BetweenMembers(front, id, MAX_ID, true, last);
      }
    }
  }

  // ----- blocked readers

  /** No blocked reader has anything to read, and the log is in order. */
  ghost predicate Quiet(s: State) {
    && Increasing(s.log) && (!s.present ==> s.log == [])
    && forall w :: w in s.waiting ==> Served(s.log, Resumed(w.text)) == []
  }

  lemma {:induction false} RemainingKeeps(waiting: seq<Waiter>, expired: set<nat>, w: Waiter)
    ensures w in Remaining(waiting, expired) <==> w in waiting && w.client !in expired
  {
    if waiting != [] { RemainingKeeps(waiting[1..], expired, w); }
  }

  lemma DollarIsNoText(log: Log)
    ensures ToText(LastOf(log)) != NEWEST && SearchID(ToText(LastOf(log)), false) == Some(LastOf(log))
  {
    TextRoundTrip(LastOf(log), false);
    assert |ToText(LastOf(log))| >= 3 by {
      PrintedNumber(LastOf(log).ms);
      PrintedNumber(LastOf(log).num);
    }
  }

  lemma StepKeepsQuiet(s: State, step: Step)
    requires Quiet(s)
    ensures Quiet(Do(s, step))
  {
    hide ToText, SearchID;
    match step
    case Xadd(a) => AddKeepsIncreasing(s.log, a);
    case Xread(client, text, blocking) =>
      DollarIsNoText(s.log);
      TextRoundTrip(ZERO_ID, false);
      AfterLast(s.log);
    case Timeout(expired) =>
      forall w | w in Remaining(s.waiting, expired) ensures Served(s.log, Resumed(w.text)) == [] {
        RemainingKeeps(s.waiting, expired, w);
      }
  }

  /** Over every run a blocked reader never has unread records: whatever arrives wakes it at once. */
  lemma {:induction false} EveryRunIsQuiet(s: State, steps: seq<Step>)
    requires Quiet(s)
    ensures Quiet(RunSteps(s, steps))
    decreases steps
  {
    if steps != [] {
      StepKeepsQuiet(s, steps[0]);
      EveryRunIsQuiet(Do(s, steps[0]), steps[1..]);
    }
  }

  lemma {:induction false} WokenAt(log: Log, waiting: seq<Waiter>, i: nat)
    requires i < |waiting|
    ensures Woken(log, waiting)[i] == Reply(waiting[i].client, Served(log, Resumed(waiting[i].text)))
  {
    hide Served, Resumed;
    if i > 0 { WokenAt(log, waiting[1..], i - 1); }
  }

  /** Hence a woken reader gets exactly the record that woke it, or nothing if that is not after its identifier. */
  lemma WakersGetTheNewRecord(s: State, a: Attempt, i: nat)
    requires Quiet(s) && Accepts(s, a) && i < |s.waiting|
    ensures var r, id := Created(s, a), SearchID(Resumed(s.waiting[i].text), false);
            XaddReplies(s, a)[i] == Reply(s.waiting[i].client, if id.Some? && r.id.Greater(id.value) then [r] else [])
  {
    hide Resumed, SearchID, Judge, InsertID;
    var r, id := Created(s, a), SearchID(Resumed(s.waiting[i].text), false);
    assert s.waiting[i] in s.waiting;
    WokenAt(Add(s.log, a), s.waiting, i);
    if id.Some? { AfterAppend(s.log, r, id.value); }
  }

  /** A client that waits, and only for what comes after an identifier. */
  ghost predicate Awaits(s: State, c: nat, id: StreamID) {
    && (exists w :: w in s.waiting && w.client == c)
    && forall w :: w in s.waiting && w.client == c ==> SearchID(Resumed(w.text), false) == Some(id)
  }

  /** A step that neither adds a record nor concerns the client. */
  predicate PassesBy(s: State, step: Step, c: nat) {
    match step
    case Xadd(a) => !Accepts(s, a)
    case Xread(client, _, _) => client != c
    case Timeout(expired) => c !in expired
  }

  predicate AllPassBy(s: State, steps: seq<Step>, c: nat)
    decreases steps
  {
    steps == [] || (PassesBy(s, steps[0], c) && AllPassBy(Do(s, steps[0]), steps[1..], c))
  }

  lemma PassingKeepsWaiting(s: State, step: Step, c: nat, id: StreamID)
    requires Awaits(s, c, id) && PassesBy(s, step, c)
    ensures Awaits(Do(s, step), c, id) && Do(s, step).log == s.log
  {
    hide Resumed, SearchID;
    var u := Do(s, step);
    forall w: Waiter | w.client == c ensures w in u.waiting <==> w in s.waiting {
      if step.Timeout? { RemainingKeeps(s.waiting, step.expired, w); }
    }
  }

  lemma {:induction false} RunKeepsWaiting(s: State, steps: seq<Step>, c: nat, id: StreamID)
    requires Awaits(s, c, id) && AllPassBy(s, steps, c)
    ensures Awaits(RunSteps(s, steps), c, id) && RunSteps(s, steps).log == s.log
    decreases steps
  {
    if steps != [] {
      hide Awaits;
      PassingKeepsWaiting(s, steps[0], c, id);
      RunKeepsWaiting(Do(s, steps[0]), steps[1..], c, id);
    }
  }

  /**
   * A client that blocks with `$` is answered by the next accepted XADD, whatever happens in
   * between, with exactly the one record of that XADD.
   */
  lemma DollarReaderGetsTheNextRecord(s: State, c: nat, steps: seq<Step>, a: Attempt)
    requires Quiet(s) && (forall w :: w in s.waiting ==> w.client != c)
    requires AllPassBy(DoXread(s, c, NEWEST, true), steps, c) && Accepts(RunSteps(DoXread(s, c, NEWEST, true), steps), a)
    ensures var u := RunSteps(DoXread(s, c, NEWEST, true), steps);
            && Reply(c, [Created(u, a)]) in XaddReplies(u, a)
            && forall r :: r in XaddReplies(u, a) && r.client == c ==> r.records == [Created(u, a)]
  {
    hide DoXread, RunSteps, AllPassBy, Quiet, Awaits, Judge, InsertID;
    var t := DoXread(s, c, NEWEST, true);
    DollarAwaits(s, c);
    EveryRunIsQuiet(t, steps);
    RunKeepsWaiting(t, steps, c, LastOf(s.log));
    var u := RunSteps(t, steps);
    AcceptedIffGreater(a.text, LastOf(u.log), a.now);
    NextRecordAnswers(u, c, LastOf(s.log), a);
  }

  /**
   * A client that blocks with an identifier after which there is nothing yet is answered by the next accepted
   * XADD too: with exactly its record if that is above the identifier, and otherwise with the null array.
   */
  lemma BlockedReaderGetsTheNextRecord(s: State, c: nat, text: Bytes, id: StreamID, steps: seq<Step>, a: Attempt)
    requires Quiet(s) && (forall w :: w in s.waiting ==> w.client != c)
    requires SearchID(text, false) == Some(id) && After(s.log, id) == []
    requires AllPassBy(DoXread(s, c, text, true), steps, c) && Accepts(RunSteps(DoXread(s, c, text, true), steps), a)
    ensures var u := RunSteps(DoXread(s, c, text, true), steps);
            var answer := Reply(c, if Created(u, a).id.Greater(id) then [Created(u, a)] else []);
            answer in XaddReplies(u, a) && forall r :: r in XaddReplies(u, a) && r.client == c ==> r == answer
  {
    hide DoXread, RunSteps, AllPassBy, Quiet, Awaits, Judge, InsertID, SearchID, After;
    var t := DoXread(s, c, text, true);
    TextAwaits(s, c, text, id);
    EveryRunIsQuiet(t, steps);
    RunKeepsWaiting(t, steps, c, id);
    NextRecordAnswers(RunSteps(t, steps), c, id, a);
  }

  lemma DollarAwaits(s: State, c: nat)
    requires Quiet(s) && (forall w :: w in s.waiting ==> w.client != c)
    ensures var t := DoXread(s, c, NEWEST, true); Awaits(t, c, LastOf(s.log)) && Quiet(t) && t.log == s.log
  {
    hide ToText, SearchID, Quiet, Served, Increasing;
    var t := DoXread(s, c, NEWEST, true);
    StepKeepsQuiet(s, Xread(c, NEWEST, true));
    DollarIsNoText(s.log);
    TextRoundTrip(ZERO_ID, false);
    NothingLogged(s);
    assert t.waiting[|s.waiting|].client == c;
  }

  lemma DollarNamesNothing()
    ensures SearchID(NEWEST, false) == None
  {
    assert Print(0) == [48];
    DashAt(NEWEST, [48]);
    assert Positive(NEWEST).None?;
  }

  lemma TextAwaits(s: State, c: nat, text: Bytes, id: StreamID)
    requires Quiet(s) && (forall w :: w in s.waiting ==> w.client != c)
    requires SearchID(text, false) == Some(id) && After(s.log, id) == []
    ensures var t := DoXread(s, c, text, true); Awaits(t, c, id) && Quiet(t)
  {
    hide SearchID, Quiet, Increasing, After;
    var t := DoXread(s, c, text, true);
    StepKeepsQuiet(s, Xread(c, text, true));
    DollarNamesNothing();
    assert t.waiting[|s.waiting|].client == c;
  }

  lemma NothingLogged(s: State)
    requires Quiet(s)
    ensures !s.present ==> LastOf(s.log) == ZERO_ID
  {}

  lemma NextRecordAnswers(u: State, c: nat, id: StreamID, a: Attempt)
    requires Quiet(u) && Awaits(u, c, id) && Accepts(u, a)
    ensures var answer := Reply(c, if Created(u, a).id.Greater(id) then [Created(u, a)] else []);
            answer in XaddReplies(u, a) && forall r :: r in XaddReplies(u, a) && r.client == c ==> r == answer
  {
    hide Resumed, SearchID, Judge, InsertID, ToText, Served;
    var answer := Reply(c, if Created(u, a).id.Greater(id) then [Created(u, a)] else []);
    forall i | 0 <= i < |u.waiting|
      ensures XaddReplies(u, a)[i].client == u.waiting[i].client
      ensures u.waiting[i].client == c ==> XaddReplies(u, a)[i] == answer
    {
      assert u.waiting[i] in u.waiting;
      WakersGetTheNewRecord(u, a, i);
    }
  }

  // ----- a reader that polls with the last identifier it has got

  datatype Turn = Write(a: Attempt) | Poll

  /** A reader: the text it sends next and all it has been sent. */
  datatype Reader = Reader(log: Log, cursor: Bytes, received: Log)

  function Next(r: Reader, turn: Turn): Reader {
    match turn
    case Write(a) => r.(log := Add(r.log, a))
    case Poll =>
      var got := Served(r.log, r.cursor);
      Reader(r.log, if got == [] then r.cursor else ToText(LastOf(got)), r.received + got)
  }

  function Turns(r: Reader, turns: seq<Turn>): Reader
    decreases turns
  {
    if turns == [] then r else Turns(Next(r, turns[0]), turns[1..])
  }

  /** What the reader has got and what it can still read make up the log after its start. */
  ghost predicate OnTrack(r: Reader, start: StreamID) {
    && Increasing(r.log) && SearchID(r.cursor, false).Some?
    && var c := SearchID(r.cursor, false).value;
       && r.received + After(r.log, c) == After(r.log, start)
       && (c == start || (c.Greater(start) && !c.Greater(LastOf(r.log))))
  }

  lemma TurnKeepsTrack(r: Reader, turn: Turn, start: StreamID)
    requires OnTrack(r, start)
    ensures OnTrack(Next(r, turn), start)
    ensures turn.Poll? ==> Next(r, turn).received == After(r.log, start)
  {
    match turn
    case Write(a) => WriteKeepsTrack(r, a, start);
    case Poll => PollKeepsTrack(r, start);
  }

  lemma WriteKeepsTrack(r: Reader, a: Attempt, start: StreamID)
    requires OnTrack(r, start)
    ensures OnTrack(Next(r, Write(a)), start)
  {
    hide ToText, SearchID, InsertID, Judge, After;
    var c := SearchID(r.cursor, false).value;
    AddKeepsIncreasing(r.log, a);
    if Add(r.log, a) != r.log {
      AcceptedIffGreater(a.text, LastOf(r.log), a.now);
      var record := Record(InsertID(a.text, LastOf(r.log), a.now).value, a.payload);
      assert Add(r.log, a) == r.log + [record];
      AfterAppend(r.log, record, c);
      AfterAppend(r.log, record, start);
    }
  }

  lemma PollKeepsTrack(r: Reader, start: StreamID)
    requires OnTrack(r, start)
    ensures OnTrack(Next(r, Poll), start)
    ensures Next(r, Poll).received == After(r.log, start)
  {
    hide ToText, SearchID, After, Increasing;
    AfterEndsAtLast(r.log, SearchID(r.cursor, false).value);
    AfterLast(r.log);
    TextRoundTrip(LastOf(r.log), false);
  }

  /**
   * A reader that polls an existing stream with the last identifier it was given, interleaved with
   * any XADDs, has received after its last poll every record after its start exactly once and in order.
   */
  lemma {:induction false} PollingReaderMissesNothing(r: Reader, start: StreamID, turns: seq<Turn>)
    requires OnTrack(r, start)
    ensures OnTrack(Turns(r, turns), start)
    ensures turns != [] && turns[|turns| - 1] == Poll ==> Turns(r, turns).received == After(Turns(r, turns).log, start)
    decreases turns
  {
    if turns != [] {
      TurnKeepsTrack(r, turns[0], start);
      PollingReaderMissesNothing(Next(r, turns[0]), start, turns[1..]);
    }
  }

  /** Such a reader starts from any text that names an identifier. */
  lemma ReadersStartOnTrack(log: Log, text: Bytes)
    requires Increasing(log) && SearchID(text, false).Some?
    ensures OnTrack(Reader(log, text, []), SearchID(text, false).value)
  {
    var start := SearchID(text, false).value;
    assert [] + After(log, start) == After(log, start);
  }
}
