/**
 * What a stream is as a value: an append-only log of records, the rule that accepts an
 * identifier (Stream::insert) and the range of a log that XRANGE and XREAD see (src/stream.cpp).
 */
module StreamLog {
  import opened Bytes
  import opened Decimal
  import opened LexOrder
  import opened Sequences
  import opened StreamIds
  import R = RadixTree

  datatype Record = Record(id: StreamID, payload: Bytes)
  type Log = seq<Record>

  datatype StreamStatus = OK(streamId: Bytes) | InvalidIdFormat | IdNotGreaterThanLast | NotGreaterThanZero

  /** lastInsertStreamID: 0-0 as long as nothing has been inserted. */
  function LastOf(log: Log): StreamID { if log == [] then ZERO_ID else log[|log| - 1].id }

  /** Identifiers strictly increase, from above 0-0. */
  ghost predicate Increasing(log: Log) {
    && (forall i :: 0 <= i < |log| ==> log[i].id != ZERO_ID)
    && (forall i, j :: 0 <= i < j < |log| ==> log[j].id.Greater(log[i].id))
  }

  /** The checks of insert, in their order. */
  function Judge(text: Bytes, last: StreamID, now: Word64): StreamStatus {
    match InsertID(text, last, now)
    case None => InvalidIdFormat
    case Some(id) =>
      if id == ZERO_ID then NotGreaterThanZero
      else if last != ZERO_ID && !id.Greater(last) then IdNotGreaterThanLast
      else OK(ToText(id))
  }

  /** An XADD attempt: the text of the identifier, the payload and what the clock says. */
  datatype Attempt = Attempt(text: Bytes, payload: Bytes, now: Word64)

  function Add(log: Log, a: Attempt): Log {
    if Judge(a.text, LastOf(log), a.now).OK? then log + [Record(InsertID(a.text, LastOf(log), a.now).value, a.payload)] else log
  }

  function Run(log: Log, attempts: seq<Attempt>): Log
    decreases attempts
  {
    if attempts == [] then log else Run(Add(log, attempts[0]), attempts[1..])
  }

  // ----- which identifiers are accepted

  /** The three checks come to one: the text names an identifier above the last one. */
  lemma AcceptedIffGreater(text: Bytes, last: StreamID, now: Word64)
    ensures Judge(text, last, now).OK? <==> InsertID(text, last, now).Some? && InsertID(text, last, now).value.Greater(last)
  {
    if InsertID(text, last, now).Some? { assert !ZERO_ID.Greater(last); }
  }

  /**
   * `*` is accepted exactly when the clock is past the last millisecond, or on it with sequence number 0. It takes
   * the clock, with sequence number 0 in a new millisecond and 1 in the last one.
   */
  lemma AutoAccepted(last: StreamID, now: Word64)
    ensures Judge([STAR], last, now).OK? <==> now > last.ms || (now == last.ms && last.num == 0)
    ensures Judge([STAR], last, now).OK? ==> Judge([STAR], last, now) == OK(ToText(StreamID(now, if now > last.ms then 0 else 1)))
  {
    AcceptedIffGreater([STAR], last, now);
  }

  /** Hence a third `*` within one millisecond is refused, and so is one after a clock step back. */
  lemma AutoRefused(t: Word64, payload: Bytes)
    requires t > 0
    ensures var a := Attempt([STAR], payload, t);
            Run([], [a, a, a]) == [Record(StreamID(t, 0), payload), Record(StreamID(t, 1), payload)]
    ensures !Judge([STAR], StreamID(t, 0), t - 1).OK?
  {
    var a := Attempt([STAR], payload, t);
    var one, two := Record(StreamID(t, 0), payload), Record(StreamID(t, 1), payload);
    assert Add([], a) == [one] && Add([one], a) == [one, two] && Add([one, two], a) == [one, two];
    assert [a, a, a][1..] == [a, a] && [a, a][1..] == [a] && [a][1..] == [];
    assert Run([one], [a, a]) == Run([one, two], [a]) == Run([one, two], []);
  }

  /** `ms-*` is accepted exactly for a later millisecond, or the last one while its sequence numbers last. */
  lemma PartialAccepted(ms: Word64, last: StreamID, now: Word64)
    ensures Judge(PartialText(ms), last, now).OK? <==> ms > last.ms || (ms == last.ms && last.num < UINT64_MAX)
  {
    InsertTexts(StreamID(ms, 0), last, now);
    AcceptedIffGreater(PartialText(ms), last, now);
  }

  /** A full identifier is accepted exactly above the last one, and the reply is its own text. */
  lemma FullAccepted(id: StreamID, last: StreamID, now: Word64)
    ensures Judge(ToText(id), last, now).OK? <==> id.Greater(last)
    ensures id.Greater(last) ==> Judge(ToText(id), last, now) == OK(ToText(id))
  {
    InsertTexts(id, last, now);
    AcceptedIffGreater(ToText(id), last, now);
  }

  // ----- whole runs

  lemma AddKeepsIncreasing(log: Log, a: Attempt)
    requires Increasing(log)
    ensures Increasing(Add(log, a))
  {
    AcceptedIffGreater(a.text, LastOf(log), a.now);
  }

  /** Over every run the log only grows, its identifiers strictly increase and its last one is the greatest. */
  lemma {:induction false} EveryRunIncreases(log: Log, attempts: seq<Attempt>)
    requires Increasing(log)
    ensures Increasing(Run(log, attempts)) && log <= Run(log, attempts)
    ensures forall r :: r in Run(log, attempts) ==> r.id == LastOf(Run(log, attempts)) || LastOf(Run(log, attempts)).Greater(r.id)
    ensures LastOf(Run(log, attempts)) == ZERO_ID <==> Run(log, attempts) == []
    decreases attempts
  {
    if attempts != [] {
      AddKeepsIncreasing(log, attempts[0]);
      EveryRunIncreases(Add(log, attempts[0]), attempts[1..]);
    }
  }

  // ----- ranges

  predicate Within(id: StreamID, start: StreamID, end: StreamID, exclusive: bool) {
    !start.Greater(id) && !id.Greater(end) && !(exclusive && id == start)
  }

  /** The records of a log with an identifier in a range, in log order. */
  function Between(log: Log, start: StreamID, end: StreamID, exclusive: bool): Log {
    if log == [] then []
    else (if Within(log[0].id, start, end, exclusive) then [log[0]] else []) + Between(log[1..], start, end, exclusive)
  }

  /** The records after an identifier: what XREAD asks for. */
  function After(log: Log, id: StreamID): Log { Between(log, id, MAX_ID, true) }

  lemma {:induction false} BetweenConcat(a: Log, b: Log, start: StreamID, end: StreamID, exclusive: bool)
    ensures Between(a + b, start, end, exclusive) == Between(a, start, end, exclusive) + Between(b, start, end, exclusive)
  {
    if a == [] {
      assert a + b == b;
    } else {
      assert (a + b)[1..] == a[1..] + b;
      BetweenConcat(a[1..], b, start, end, exclusive);
    }
  }

  /** The records of a range are exactly those with an identifier in it. */
  lemma {:induction false} BetweenMembers(log: Log, start: StreamID, end: StreamID, exclusive: bool, r: Record)
    ensures r in Between(log, start, end, exclusive) <==> r in log && Within(r.id, start, end, exclusive)
  {
    if log != [] { BetweenMembers(log[1..], start, end, exclusive, r); }
  }

  /** Plainly: of every record at its place in the log, neither below the start nor above the end, and not at an excluded start. */
  lemma {:induction false} BetweenMeans(log: Log, start: StreamID, end: StreamID, exclusive: bool) returns (at: seq<nat>)
    ensures Selects(log, at, Between(log, start, end, exclusive))
    ensures forall p: nat {:trigger p in at} ::
              p in at <==> p < |log| && !start.Greater(log[p].id) && !log[p].id.Greater(end) && (exclusive ==> log[p].id != start)
  {
    if log == [] {
      at := [];
    } else {
      var n := |log| - 1;
      var front, last := log[..n], log[n];
      at := BetweenMeans(front, start, end, exclusive);
      assert log == front + [last];
      BetweenConcat(front, [last], start, end, exclusive);
      var t := Between(front, start, end, exclusive);
      if Within(last.id, start, end, exclusive) {
        SelectsMore(front, at, t, last);
        at := at + [n];
      } else {
        SelectsLess(front, at, t, last);
        assert t + [] == t;
      }
    }
  }

  lemma {:induction false} BetweenNone(log: Log, start: StreamID, end: StreamID, exclusive: bool)
    requires forall r :: r in log ==> !Within(r.id, start, end, exclusive)
    ensures Between(log, start, end, exclusive) == []
  {
    if log != [] {
      assert log[0] in log;
      BetweenNone(log[1..], start, end, exclusive);
    }
  }

  // ----- the keys of the radix tree

  function KeyOf(r: Record): R.Entry { (ToBinary(r.id), r.payload) }

  function Keys(log: Log): (es: seq<R.Entry>)
    ensures |es| == |log|
  {
    if log == [] then [] else [KeyOf(log[0])] + Keys(log[1..])
  }

  lemma {:induction false} KeysAt(log: Log, i: nat)
    requires i < |log|
    ensures Keys(log)[i] == KeyOf(log[i])
  {
    if i > 0 { KeysAt(log[1..], i - 1); }
  }

  lemma {:induction false} KeysConcat(a: Log, b: Log)
    ensures Keys(a + b) == Keys(a) + Keys(b)
  {
    if a == [] {
      assert a + b == b;
    } else {
      assert (a + b)[1..] == a[1..] + b;
      KeysConcat(a[1..], b);
    }
  }

  /** Selecting keys in byte order is selecting identifiers in their own order. */
  lemma {:induction false} SelectKeys(log: Log, start: StreamID, end: StreamID, exclusive: bool)
    ensures R.Select(Keys(log), ToBinary(start), ToBinary(end), exclusive) == Keys(Between(log, start, end, exclusive))
  {
    if log != [] {
      hide ToBinary;
      SelectKeys(log[1..], start, end, exclusive);
      KeyInRange(log[0].id, start, end, exclusive);
      var own := if Within(log[0].id, start, end, exclusive) then [log[0]] else [];
      KeysConcat(own, Between(log[1..], start, end, exclusive));
      assert Keys([log[0]]) == [KeyOf(log[0])];
    }
  }

  lemma KeyInRange(id: StreamID, start: StreamID, end: StreamID, exclusive: bool)
    ensures R.InRange(ToBinary(id), ToBinary(start), ToBinary(end), exclusive) <==> Within(id, start, end, exclusive)
  {
    BinaryOrder(start, id);
    BinaryOrder(id, end);
    Trichotomy(ToBinary(start), ToBinary(id));
    Trichotomy(ToBinary(id), ToBinary(end));
  }

  // ----- inserting a greater key appends an entry

  predicate EntryBelow(a: R.Entry, b: R.Entry) { Lt(a.0, b.0) }

  lemma EntriesAreOrdered()
    ensures Asymmetric(EntryBelow)
  {
    forall a: R.Entry, b: R.Entry ensures !(EntryBelow(a, b) && EntryBelow(b, a)) { Trichotomy(a.0, b.0); }
  }

  /** A key above all keys of a tree becomes its last entry. */
  lemma AppendsEntry(t: R.Tree, key: Bytes, value: Bytes)
    requires R.WellFormed(t) && forall e :: e in R.Entries(t, []) ==> Lt(e.0, key)
    ensures R.Entries(R.Insert(t, key, value), []) == R.Entries(t, []) + [(key, value)]
  {
    hide R.Entries, R.Insert, R.Find;
    var u := R.Insert(t, key, value);
    R.InsertKeepsForm(t, key, value);
    R.EntriesAscend(t, []);
    R.EntriesAscend(u, []);
    var a, b := R.Entries(u, []), R.Entries(t, []) + [(key, value)];
    forall i, j | 0 <= i < j < |b| ensures Lt(b[i].0, b[j].0) {
      if j == |b| - 1 { assert b[i] in R.Entries(t, []); }
    }
    forall e ensures e in a <==> e in b {
      assert e == (e.0, e.1) && e.0[0..] == e.0 && IsPrefix([], e.0);
      R.EntriesAreFound(u, [], e.0, e.1);
      R.EntriesAreFound(t, [], e.0, e.1);
      R.FindAfterInsert(t, key, value, e.0);
      Trichotomy(key, key);
      assert e in b <==> e in R.Entries(t, []) || e == (key, value);
    }
    EntriesAreOrdered();
    OrderIsDetermined(EntryBelow, a, b);
  }
}
