/**
 * The stream commands of DB (src/db/XADD/xadd_db.cpp, src/db/XREAD/xread_db.cpp): streams in
 * memory, queues of blocked readers and the clients' write buffers. Each command refines, for
 * every key it is about, the command of StreamModel, and leaves every other key alone.
 */
module StreamCommands {
  import opened Bytes
  import opened Decimal
  import opened Resp
  import opened Sequences
  import opened StreamIds
  import opened StreamLog
  import opened StreamModel
  import opened Streams
  import R = RadixTree

  type Key = Bytes

  // ----- what is stored for a record and sent for it

  /** The raw_value that handle_xadd stores. */
  function Payload(fields: seq<(Bytes, Bytes)>): Bytes {
    if fields == [] then [] else Payload(fields[..|fields| - 1]) + Bulk(fields[|fields| - 1].0) + Bulk(fields[|fields| - 1].1)
  }

  function Flatten(fields: seq<(Bytes, Bytes)>): seq<Bytes> {
    if fields == [] then [] else Flatten(fields[..|fields| - 1]) + [fields[|fields| - 1].0, fields[|fields| - 1].1]
  }

  /** A record as XREAD sends it. */
  function RecordReply(r: Record): Bytes {
    ArrayHeader(2) + Bulk(ToText(r.id)) + BulkArray(Sequence(r.payload, 0).1)
  }

  function LogReply(log: Log): Bytes {
    if log == [] then [] else LogReply(log[..|log| - 1]) + RecordReply(log[|log| - 1])
  }

  function StreamReply(key: Key, log: Log): Bytes {
    ArrayHeader(2) + Bulk(key) + ArrayHeader(|log|) + LogReply(log)
  }

  lemma {:induction false} PayloadIsBulks(fields: seq<(Bytes, Bytes)>)
    ensures Payload(fields) == Bulks(Flatten(fields))
  {
    hide Bulk;
    if fields != [] {
      var front, last := fields[..|fields| - 1], fields[|fields| - 1];
      PayloadIsBulks(front);
      BulksConcat(Flatten(front), [last.0, last.1]);
      assert [last.0, last.1][1..] == [last.1] && [last.1][1..] == [];
      assert Bulks([last.0, last.1]) == Bulk(last.0) + Bulks([last.1]) && Bulks([last.1]) == Bulk(last.1) + Bulks([]);
    }
  }

  /** The fields of a record come back as they were given, whatever bytes they hold. */
  lemma FieldsComeBack(id: StreamID, fields: seq<(Bytes, Bytes)>)
    requires |Payload(fields)| <= UINT64_MAX
    ensures Sequence(Payload(fields), 0) == (true, Flatten(fields))
    ensures RecordReply(Record(id, Payload(fields))) == ArrayHeader(2) + Bulk(ToText(id)) + BulkArray(Flatten(fields))
  {
    PayloadIsBulks(fields);
    SequenceOfBulks(Payload(fields), 0, Flatten(fields));
  }

  /** The loop of handle_xadd over the fields. */
  method BuildPayload(fields: seq<(Bytes, Bytes)>) returns (raw: Bytes)
    ensures raw == Payload(fields)
  {
    hide Bulk;
    raw := [];
    for i := 0 to |fields|
      invariant raw == Payload(fields[..i])
    {
      assert fields[..i + 1][..i] == fields[..i];
      raw := raw + Bulk(fields[i].0);
      raw := raw + Bulk(fields[i].1);
    }
    assert fields[..|fields|] == fields;
  }

  /** The loop of handle_xread and write_xread_response over the entries of a range. */
  method WriteEntries(entries: seq<R.Entry>, ghost log: Log) returns (text: Bytes)
    requires entries == Keys(log)
    ensures text == LogReply(log)
  {
    hide Bulk, BulkArray, ArrayHeader, Sequence, ToText, ToBinary, FromBinary;
    text := [];
    for i := 0 to |entries|
      invariant text == LogReply(log[..i])
    {
      KeysAt(log, i);
      BinaryRoundTrip(log[i].id);
      assert log[..i + 1][..i] == log[..i];
      var ok, fields := ParseBulkStringSequence(entries[i].1);
      text := text + (ArrayHeader(2) + Bulk(ToText(FromBinary(entries[i].0))) + BulkArray(fields));
    }
    assert log[..|log|] == log;
  }

  // ----- write buffers

  function BufferOf(buffers: map<nat, Bytes>, client: nat): Bytes {
    if client in buffers then buffers[client] else []
  }

  function Appended(buffers: map<nat, Bytes>, client: nat, text: Bytes): map<nat, Bytes> {
    buffers[client := BufferOf(buffers, client) + text]
  }

  /** What write_xread_response appends for a key that holds a stream. */
  function WakeText(key: Key, records: Log): Bytes {
    if records == [] then NULL_ARRAY else ArrayHeader(1) + StreamReply(key, records)
  }

  /** Replies appended one after the other. */
  function Delivered(buffers: map<nat, Bytes>, key: Key, replies: seq<Reply>): map<nat, Bytes>
    decreases replies
  {
    if replies == [] then buffers
    else Delivered(Appended(buffers, replies[0].client, WakeText(key, replies[0].records)), key, replies[1..])
  }

  /** What the client that sent XADD is told. */
  function XaddText(status: StreamStatus): Bytes {
    match status
    case OK(streamId) => Bulk(streamId)
    case InvalidIdFormat => Error("Invalid stream ID format")
    case IdNotGreaterThanLast => Error("The ID specified in XADD " + "is equal or smaller than " + "the target stream top item")
    case NotGreaterThanZero => Error("The ID specified in XADD " + "must be greater than 0-0")
  }

  /** What XREAD comes to: the client blocks on one key, or is sent the records of some streams. */
  datatype Outcome = Blocks(key: Key, text: Bytes) | Answers(streams: seq<(Key, Log)>)

  /** A blocking key discards what the keys before it had to say. */
  function Behind(streams: seq<(Key, Log)>, o: Outcome): Outcome {
    match o
    case Blocks(_, _) => o
    case Answers(rest) => Answers(streams + rest)
  }

  function StreamReplies(streams: seq<(Key, Log)>): Bytes {
    if streams == [] then []
    else StreamReplies(streams[..|streams| - 1]) + StreamReply(streams[|streams| - 1].0, streams[|streams| - 1].1)
  }

  /** What handle_xread sends. */
  function AnswerText(streams: seq<(Key, Log)>): Bytes {
    if streams == [] then EMPTY_ARRAY else ArrayHeader(|streams|) + StreamReplies(streams)
  }

  datatype RedisObject = StreamObject(stream: Stream) | OtherType

  class DB {
    var store: map<Key, RedisObject>
    var blockedXreadKeys: map<Key, seq<Waiter>>
    var writeBuffers: map<nat, Bytes>
    ghost var repr: set<object>

    /** Every stream is valid and shares no memory with another. */
    ghost predicate Valid()
      reads this`store, this`repr, repr
    {
      && this !in repr
      && (forall k :: k in store && store[k].StreamObject? ==>
            store[k].stream in repr && store[k].stream.repr <= repr && store[k].stream.Valid())
      && (forall k, l :: k in store && l in store && store[k].StreamObject? && store[l].StreamObject? && k != l ==>
            {store[k].stream} + store[k].stream.repr !! {store[l].stream} + store[l].stream.repr)
    }

    function Queue(k: Key): seq<Waiter>
      reads this`blockedXreadKeys
    { QueueIn(blockedXreadKeys, k) }

    ghost predicate HoldsStream(k: Key)
      reads this`store
    { k in store && store[k].StreamObject? }

    ghost function Content(k: Key): Log
      reads this`store, this`repr, repr
      requires Valid()
    { if HoldsStream(k) then store[k].stream.log else [] }

    /** What the model sees of a key. */
    ghost function View(k: Key): State
      reads this`store, this`repr, this`blockedXreadKeys, repr
      requires Valid()
    { State(HoldsStream(k), Content(k), Queue(k)) }

    constructor ()
      ensures Valid() && repr == {} && store == map[] && blockedXreadKeys == map[] && writeBuffers == map[]
      ensures forall k :: View(k) == FRESH
    {
      store, blockedXreadKeys, writeBuffers, repr := map[], map[], map[], {};
    }

    /** An append to a client's write buffer. */
    method Write(client: nat, text: Bytes)
      requires Valid()
      modifies this`writeBuffers
      ensures writeBuffers == Appended(old(writeBuffers), client, text)
      ensures Valid() && forall k :: View(k) == old(View(k))
    {
      writeBuffers := Appended(writeBuffers, client, text);
    }

    /** What write_xread_response appends, for a key that holds a stream. */
    method XreadResponse(key: Key, startId: Bytes) returns (text: Bytes)
      requires Valid() && HoldsStream(key)
      ensures text == WakeText(key, Served(View(key).log, Resumed(startId)))
    {
      hide ToText, SearchID, Keys, LogReply, StreamReply, Bulk, ArrayHeader, Print;
      var stream := store[key].stream;
      ghost var records := Served(stream.log, Resumed(startId));
      SearchPlus();
      KeysOfNone();
      var actualStartId := if startId == NEWEST then ToText(ZERO_ID) else startId;
      var ok, entries := stream.XrangeData(actualStartId, [PLUS], true);
      assert ok ==> entries == Keys(records);
      assert !ok ==> records == [];
      if !ok || entries == [] { return NULL_ARRAY; }
      var body := WriteEntries(entries, records);
      text := ArrayHeader(1) + (ArrayHeader(2) + Bulk(key) + ArrayHeader(|entries|) + body);
      StreamReplyIs(key, records);
    }

    /** write_xread_response for a key that holds a stream. */
    method WriteXreadResponse(client: nat, key: Key, startId: Bytes)
      requires Valid() && HoldsStream(key)
      modifies this`writeBuffers
      ensures writeBuffers == Appended(old(writeBuffers), client, WakeText(key, Served(View(key).log, Resumed(startId))))
      ensures Valid() && forall k :: View(k) == old(View(k))
    {
      hide Valid, View, Served, Resumed, WakeText, Appended;
      var text := XreadResponse(key, startId);
      Write(client, text);
    }

    /** handle_blocked_xread_clients: the whole queue of the key is answered. */
    method HandleBlockedXreadClients(key: Key)
      requires Valid() && HoldsStream(key)
      modifies this`writeBuffers, this`blockedXreadKeys
      ensures Valid() && View(key) == old(View(key)).(waiting := []) && forall k :: k != key ==> View(k) == old(View(k))
      ensures writeBuffers == Delivered(old(writeBuffers), key, Woken(View(key).log, old(View(key)).waiting))
    {
      hide Served, Resumed, WakeText, Valid, View, Appended;
      if key !in blockedXreadKeys || blockedXreadKeys[key] == [] {
        EmptyQueue(key);
        return;
      }
      ghost var log, start := View(key).log, View(key).waiting;
      QueueIsWaiting(key);
      while blockedXreadKeys[key] != []
        invariant key in blockedXreadKeys && Valid() && View(key) == State(true, log, blockedXreadKeys[key])
        invariant forall k :: k != key ==> View(k) == old(View(k))
        invariant Delivered(writeBuffers, key, Woken(log, blockedXreadKeys[key])) == Delivered(old(writeBuffers), key, Woken(log, start))
        decreases |blockedXreadKeys[key]|
      {
        assert Woken(log, blockedXreadKeys[key])[1..] == Woken(log, blockedXreadKeys[key][1..]);
        var front := PopFront(key);
        WriteXreadResponse(front.client, key, front.text);
      }
      EraseQueue(key);
    }

    lemma QueueIsWaiting(key: Key)
      requires Valid() && HoldsStream(key)
      ensures View(key) == State(true, View(key).log, Queue(key))
    {}

    lemma EmptyQueue(key: Key)
      requires Valid() && HoldsStream(key) && Queue(key) == []
      ensures View(key) == View(key).(waiting := [])
    {}

    /** front and pop of the queue of a key. */
    method PopFront(key: Key) returns (front: Waiter)
      requires Valid() && key in blockedXreadKeys && blockedXreadKeys[key] != []
      modifies this`blockedXreadKeys
      ensures Valid() && blockedXreadKeys == old(blockedXreadKeys)[key := old(blockedXreadKeys)[key][1..]]
      ensures front == old(blockedXreadKeys)[key][0]
      ensures View(key) == old(View(key)).(waiting := blockedXreadKeys[key]) && forall k :: k != key ==> View(k) == old(View(k))
    {
      front := blockedXreadKeys[key][0];
      blockedXreadKeys := blockedXreadKeys[key := blockedXreadKeys[key][1..]];
    }

    /** The erasure of an empty queue. */
    method EraseQueue(key: Key)
      requires Valid() && key in blockedXreadKeys
      modifies this`blockedXreadKeys
      ensures Valid() && View(key) == old(View(key)).(waiting := []) && forall k :: k != key ==> View(k) == old(View(k))
    {
      blockedXreadKeys := blockedXreadKeys - {key};
    }

    /** handle_xadd. */
    method HandleXadd(client: nat, key: Key, streamId: Bytes, fields: seq<(Bytes, Bytes)>, now: Word64)
      requires Valid()
      modifies this, repr
      ensures Valid() && fresh(repr - old(repr))
      ensures forall k :: k != key ==> View(k) == old(View(k)) && (k in store <==> k in old(store))
      ensures old(key in store && !HoldsStream(key)) ==>
                && View(key) == old(View(key)) && store == old(store)
                && writeBuffers == Appended(old(writeBuffers), client, Error("Key exists with different data type"))
      ensures !old(key in store && !HoldsStream(key)) ==>
                var a := Attempt(streamId, Payload(fields), now);
                && HoldsStream(key) && View(key) == DoXadd(old(View(key)), a)
                && var status := Judge(streamId, LastOf(old(View(key)).log), now);
                   writeBuffers == Delivered(Appended(old(writeBuffers), client, XaddText(status)), key, XaddReplies(old(View(key)), a))
    {
      hide Judge, Woken, Delivered, Add, Payload, Increasing, Error, Valid, View, Appended, WakeText, XaddText;
      var rawValue := BuildPayload(fields);
      if key !in store { CreateStream(key); }
      if store[key].OtherType? {
        Write(client, Error("Key exists with different data type"));
        return;
      }
      var status := InsertRecord(key, streamId, rawValue, now);
      if !status.OK? {
        Write(client, XaddText(status));
        DeliveredNone(writeBuffers, key);
        return;
      }
      XaddTextOfOk(status.streamId);
      Write(client, Bulk(status.streamId));
      HandleBlockedXreadClients(key);
    }

    /** The stream that handle_xadd creates for a missing key. */
    method CreateStream(key: Key)
      requires Valid() && key !in store
      modifies this`store, this`repr
      ensures Valid() && fresh(repr - old(repr)) && HoldsStream(key)
      ensures View(key) == old(View(key)).(present := true)
      ensures forall k :: k != key ==> View(k) == old(View(k)) && (k in store <==> k in old(store))
    {
      hide Valid, View, HoldsStream;
      EveryRepr();
      var stream := new Stream();
      Put(key, stream);
    }

    lemma EveryRepr()
      requires Valid()
      ensures this !in repr
    {}

    /** Stores an empty stream that shares no memory with the others under a new key. */
    method Put(key: Key, stream: Stream)
      requires Valid() && key !in store && stream !in repr && stream.Valid() && stream.log == [] && stream.repr == {}
      modifies this`store, this`repr
      ensures Valid() && repr == old(repr) + {stream} && HoldsStream(key)
      ensures View(key) == old(View(key)).(present := true)
      ensures forall k :: k != key ==> View(k) == old(View(k)) && (k in store <==> k in old(store))
    {
      hide Stream.Valid;
      store := store[key := StreamObject(stream)];
      repr := repr + {stream};
    }

    /** The insertion of handle_xadd. */
    method InsertRecord(key: Key, streamId: Bytes, value: Bytes, now: Word64) returns (status: StreamStatus)
      requires Valid() && HoldsStream(key)
      modifies repr, this`repr
      ensures Valid() && fresh(repr - old(repr)) && HoldsStream(key)
      ensures store == old(store) && blockedXreadKeys == old(blockedXreadKeys) && writeBuffers == old(writeBuffers)
      ensures status == Judge(streamId, LastOf(old(View(key)).log), now)
      ensures View(key) == State(true, Add(old(View(key)).log, Attempt(streamId, value, now)), old(View(key)).waiting)
      ensures forall k :: k != key ==> View(k) == old(View(k))
    {
      hide Judge, Add, Increasing, Stream.Valid;
      var stream := store[key].stream;
      status := stream.Insert(streamId, value, now);
      repr := repr + stream.repr;
    }

    /** What one key comes to: a key of another type only blocks, on `$`. */
    ghost function Reading(key: Key, id: Bytes, blocking: bool): KeyStep
      reads this, repr
      requires Valid() && (blocking || key in store)
    {
      if key in store && store[key].OtherType? then
        if blocking && id == NEWEST then Stops(id) else Gives([])
      else
        match BlocksOn(View(key), id, blocking)
        case Some(text) => Stops(text)
        case None => Gives(Served(View(key).log, id))
    }

    /** The rule of handle_xread, key by key. */
    ghost function XreadOutcome(keys: seq<Key>, ids: seq<Bytes>, blocking: bool): Outcome
      reads this, repr
      requires Valid() && |keys| == |ids| && (blocking || forall k :: k in keys ==> k in store)
      decreases |keys|
    {
      if keys == [] then Answers([])
      else
        match Reading(keys[0], ids[0], blocking)
        case Stops(text) => Blocks(keys[0], text)
        case Gives(records) =>
          var rest := XreadOutcome(keys[1..], ids[1..], blocking);
          if records == [] then rest else Behind([(keys[0], records)], rest)
    }

    /** What one key comes to, plainly: it stops a read with BLOCK that asks with `$` or that has nothing to get. */
    lemma ReadingMeans(key: Key, id: Bytes, blocking: bool)
      requires Valid() && (blocking || key in store)
      ensures var nothing := SearchID(id, false).None? || After(Content(key), SearchID(id, false).value) == [];
              Reading(key, id, blocking) ==
              if blocking && (id == NEWEST || key !in store || (HoldsStream(key) && nothing)) then
                Stops(if id == NEWEST && HoldsStream(key) then ToText(LastOf(Content(key))) else id)
              else if nothing || !HoldsStream(key) then Gives([])
              else Gives(After(Content(key), SearchID(id, false).value))
    {
      hide SearchID, ToText, Valid;
      assert forall start :: After([], start) == [];
      DollarNamesNothing();
    }

    lemma {:induction false} StopsFrom(keys: seq<Key>, ids: seq<Bytes>, k: nat, i: nat)
      requires Valid() && |keys| == |ids| && k <= i < |keys| && Reading(keys[i], ids[i], true).Stops?
      requires forall j {:trigger Reading(keys[j], ids[j], true)} :: k <= j < i ==> Reading(keys[j], ids[j], true).Gives?
      ensures XreadOutcome(keys[k..], ids[k..], true) == Blocks(keys[i], Reading(keys[i], ids[i], true).text)
      decreases i - k
    {
      hide Valid, Reading, XreadOutcome;
      OutcomeStep(keys, ids, true, k, []);
      NothingBefore(XreadOutcome(keys[k..], ids[k..], true));
      assert k < i ==> Reading(keys[k], ids[k], true).Gives?;
      if k < i { StopsFrom(keys, ids, k + 1, i); }
    }

    /**
     * A read with BLOCK waits at the first key that is missing, is asked for with `$`, or has no record after its
     * identifier: with that identifier, or for `$` the last one of the stream. A key of another type is passed over.
     */
    lemma BlocksAtTheFirst(keys: seq<Key>, ids: seq<Bytes>, i: nat)
      requires Valid() && |keys| == |ids| && i < |keys|
      requires forall j {:trigger keys[j]} :: 0 <= j < i ==> keys[j] in store && ids[j] != NEWEST
      requires forall j {:trigger keys[j]} :: 0 <= j < i && HoldsStream(keys[j]) ==>
                 (SearchID(ids[j], false).Some? && After(Content(keys[j]), SearchID(ids[j], false).value) != [])
      requires keys[i] !in store || ids[i] == NEWEST || (HoldsStream(keys[i]) &&
                 (SearchID(ids[i], false).None? || After(Content(keys[i]), SearchID(ids[i], false).value) == []))
      ensures XreadOutcome(keys, ids, true) ==
              Blocks(keys[i], if ids[i] == NEWEST && HoldsStream(keys[i]) then ToText(LastOf(Content(keys[i]))) else ids[i])
    {
      hide Valid, Reading, XreadOutcome, SearchID, ToText, After, HoldsStream, Content;
      forall j | 0 <= j <= i ensures Reading(keys[j], ids[j], true).Stops? <==> j == i { ReadingMeans(keys[j], ids[j], true); }
      ReadingMeans(keys[i], ids[i], true);
      StopsFrom(keys, ids, 0, i);
      assert keys[0..] == keys && ids[0..] == ids;
    }

    /**
     * Otherwise it is answered, like every read without BLOCK: with all records after the identifiers, key by key,
     * for the keys that have any.
     */
    lemma SendsWhatThereIs(keys: seq<Key>, ids: seq<Bytes>, blocking: bool) returns (at: seq<nat>, streams: seq<(Key, Log)>)
      requires Valid() && |keys| == |ids| && forall k :: k in keys ==> k in store
      requires blocking ==> forall j {:trigger keys[j]} :: 0 <= j < |keys| ==> ids[j] != NEWEST
      requires blocking ==> forall j {:trigger keys[j]} :: 0 <= j < |keys| && HoldsStream(keys[j]) ==>
                 (SearchID(ids[j], false).Some? && After(Content(keys[j]), SearchID(ids[j], false).value) != [])
      ensures XreadOutcome(keys, ids, blocking) == Answers(streams)
      ensures |at| == |streams| && forall i, j :: 0 <= i < j < |at| ==> at[i] < at[j]
      ensures forall j: nat {:trigger j in at} ::
                j in at <==> (j < |keys| && HoldsStream(keys[j]) && SearchID(ids[j], false).Some? &&
                              After(Content(keys[j]), SearchID(ids[j], false).value) != [])
      ensures forall i {:trigger streams[i]} :: 0 <= i < |at| ==>
                (at[i] in at && streams[i] == (keys[at[i]], After(Content(keys[at[i]]), SearchID(ids[at[i]], false).value)))
    {
      hide Valid, Reading, XreadOutcome, SearchID, ToText, After, HoldsStream, Content, Selects, Behind;
      var all := [];
      at, streams := [], [];
      NoneSelected<(Key, Log)>();
      NothingBefore(XreadOutcome(keys, ids, blocking));
      assert keys[0..] == keys && ids[0..] == ids;
      for k := 0 to |keys|
        invariant |all| == k && Selects(all, at, streams)
        invariant forall j: nat {:trigger j in at} :: j in at <==> j < k && all[j].1 != []
        invariant forall j {:trigger all[j]} :: 0 <= j < k ==> all[j] == (keys[j],
                    if HoldsStream(keys[j]) && SearchID(ids[j], false).Some? then After(Content(keys[j]), SearchID(ids[j], false).value) else [])
        invariant XreadOutcome(keys, ids, blocking) == Behind(streams, XreadOutcome(keys[k..], ids[k..], blocking))
      {
        OutcomeStep(keys, ids, blocking, k, streams);
        ReadingMeans(keys[k], ids[k], blocking);
        var own := (keys[k], Reading(keys[k], ids[k], blocking).records);
        if own.1 == [] {
          SelectsLess(all, at, streams, own);
        } else {
          SelectsMore(all, at, streams, own);
          at, streams := at + [k], streams + [own];
        }
        all := all + [own];
      }
      assert keys[|keys|..] == [] && ids[|keys|..] == [];
      OutcomeEnds(streams, blocking);
      SelectedAt(all, at, streams);
    }

    /** The two plain cases of a read: nothing to get from the first key, and something from the only one. */
    lemma XreadMeans(keys: seq<Key>, ids: seq<Bytes>, blocking: bool)
      requires Valid() && (blocking || forall k :: k in keys ==> k in store)
      ensures |keys| == |ids| && blocking && keys != [] && (keys[0] !in store || HoldsStream(keys[0])) &&
              (SearchID(ids[0], false).None? || After(View(keys[0]).log, SearchID(ids[0], false).value) == []) ==>
                XreadOutcome(keys, ids, blocking) ==
                Blocks(keys[0], if ids[0] == NEWEST && HoldsStream(keys[0]) then ToText(LastOf(View(keys[0]).log)) else ids[0])
      ensures |keys| == |ids| == 1 && HoldsStream(keys[0]) && SearchID(ids[0], false).Some? &&
              After(View(keys[0]).log, SearchID(ids[0], false).value) != [] ==>
                XreadOutcome(keys, ids, blocking) == Answers([(keys[0], After(View(keys[0]).log, SearchID(ids[0], false).value))])
    {
      ContentInView();
      hide Valid, Reading, XreadOutcome, SearchID, ToText, After, Content, View;
      if |keys| == |ids| && blocking && keys != [] && (keys[0] !in store || HoldsStream(keys[0])) &&
         (SearchID(ids[0], false).None? || After(View(keys[0]).log, SearchID(ids[0], false).value) == []) {
        BlocksAtTheFirst(keys, ids, 0);
      }
      if |keys| == |ids| == 1 && HoldsStream(keys[0]) && SearchID(ids[0], false).Some? &&
         After(View(keys[0]).log, SearchID(ids[0], false).value) != [] {
        DollarNamesNothing();
        OneKeySends(keys[0], ids[0], blocking);
        assert keys == [keys[0]] && ids == [ids[0]];
      }
    }

    lemma ContentInView()
      requires Valid()
      ensures forall k :: View(k).log == Content(k)
    {}

    lemma OneKeySends(key: Key, id: Bytes, blocking: bool)
      requires Valid() && HoldsStream(key) && SearchID(id, false).Some? && After(Content(key), SearchID(id, false).value) != []
      ensures XreadOutcome([key], [id], blocking) == Answers([(key, After(Content(key), SearchID(id, false).value))])
    {
      hide Valid, Reading, XreadOutcome, SearchID, ToText, After, Content;
      DollarNamesNothing();
      var keys, ids, own := [key], [id], [(key, After(Content(key), SearchID(id, false).value))];
      ReadingMeans(key, id, blocking);
      OutcomeStep(keys, ids, blocking, 0, []);
      NothingBefore(XreadOutcome(keys[0..], ids[0..], blocking));
      assert keys[0..] == keys && ids[0..] == ids && keys[1..] == [] && ids[1..] == [] && [] + own == own;
      OutcomeEnds(own, blocking);
    }

    /**
     * The part of check_and_expire_blocked_clients for blocked readers: queue by queue, in some order of the
     * keys, every expired reader gets the null array in the order of its queue.
     */
    method ExpireReaders(expired: set<nat>) returns (ghost order: seq<Key>)
      requires Valid()
      modifies this`blockedXreadKeys, this`writeBuffers
      ensures Valid() && forall k :: View(k) == Do(old(View(k)), Timeout(expired))
      ensures (forall k :: k in order <==> k in old(blockedXreadKeys)) && |order| == |old(blockedXreadKeys)|
      ensures writeBuffers == TimedOut(old(writeBuffers), old(blockedXreadKeys), expired, order)
    {
      Waiting();
      hide Remaining, TimedOut, Valid, View;
      var kept, buffers;
      kept, buffers, order := ExpireQueues(blockedXreadKeys, expired, writeBuffers);
      Requeue(kept, buffers);
    }

    lemma Waiting()
      requires Valid()
      ensures forall k :: View(k).waiting == QueueIn(blockedXreadKeys, k)
    {}

    /** Other queues, and what has been written while they were formed. */
    method Requeue(queues: map<Key, seq<Waiter>>, buffers: map<nat, Bytes>)
      requires Valid()
      modifies this`blockedXreadKeys, this`writeBuffers
      ensures Valid() && writeBuffers == buffers && forall k :: View(k) == old(View(k)).(waiting := QueueIn(queues, k))
    {
      blockedXreadKeys, writeBuffers := queues, buffers;
    }

    /** mark_client_blocking. */
    method MarkClientBlocking(client: nat, key: Key, text: Bytes)
      requires Valid()
      modifies this`blockedXreadKeys
      ensures Valid() && View(key) == old(View(key)).(waiting := old(View(key)).waiting + [Waiter(client, text)])
      ensures forall k :: k != key ==> View(k) == old(View(k))
    {
      blockedXreadKeys := blockedXreadKeys[key := Queue(key) + [Waiter(client, text)]];
    }

    /** handle_xread. Without BLOCK the source goes on with a missing key, so such a key must exist. */
    method HandleXread(client: nat, keys: seq<Key>, ids: seq<Bytes>, blocking: bool)
      requires Valid() && (blocking || forall k :: k in keys ==> k in store)
      modifies this`writeBuffers, this`blockedXreadKeys
      ensures Valid()
      ensures |keys| != |ids| ==> writeBuffers == Appended(old(writeBuffers), client, EMPTY_ARRAY)
      ensures |keys| != |ids| ==> forall k :: View(k) == old(View(k))
      ensures |keys| == |ids| ==>
        match old(XreadOutcome(keys, ids, blocking))
        case Blocks(key, text) =>
          && writeBuffers == old(writeBuffers)
          && View(key) == old(View(key)).(waiting := old(View(key)).waiting + [Waiter(client, text)])
          && forall k :: k != key ==> View(k) == old(View(k))
        case Answers(streams) =>
          writeBuffers == Appended(old(writeBuffers), client, AnswerText(streams)) && forall k :: View(k) == old(View(k))
      // With BLOCK, and nothing to get from the first key, nothing is written and the client waits at that key.
      ensures |keys| == |ids| && blocking && keys != [] && (keys[0] !in store || HoldsStream(keys[0])) &&
              (SearchID(ids[0], false).None? || After(old(View(keys[0])).log, SearchID(ids[0], false).value) == []) ==>
                var text := if ids[0] == NEWEST && HoldsStream(keys[0]) then ToText(LastOf(old(View(keys[0])).log)) else ids[0];
                && writeBuffers == old(writeBuffers)
                && View(keys[0]) == old(View(keys[0])).(waiting := old(View(keys[0])).waiting + [Waiter(client, text)])
                && forall k :: k != keys[0] ==> View(k) == old(View(k))
      // With something to get from its one key, the client is sent that and waits nowhere.
      ensures |keys| == |ids| == 1 && HoldsStream(keys[0]) && SearchID(ids[0], false).Some? &&
              After(old(View(keys[0])).log, SearchID(ids[0], false).value) != [] ==>
                var records := After(old(View(keys[0])).log, SearchID(ids[0], false).value);
                && writeBuffers == Appended(old(writeBuffers), client, AnswerText([(keys[0], records)]))
                && forall k :: View(k) == old(View(k))
    {
      hide Valid, View, AnswerText, Reading, SearchID, ToText, After, XreadOutcome;
      XreadMeans(keys, ids, blocking);
      if |keys| != |ids| {
        Write(client, EMPTY_ARRAY);
        return;
      }
      var blocked, replies, streams := ReadKeys(keys, ids, blocking);
      if blocked.Some? {
        MarkClientBlocking(client, blocked.value.0, blocked.value.1);
        return;
      }
      NothingToSend();
      if replies == [] {
        Write(client, EMPTY_ARRAY);
      } else {
        var text := WriteReplies(replies, streams);
        Write(client, text);
      }
    }

    lemma OutcomeStep(keys: seq<Key>, ids: seq<Bytes>, blocking: bool, i: nat, streams: seq<(Key, Log)>)
      requires Valid() && |keys| == |ids| && (blocking || forall k :: k in keys ==> k in store) && i < |keys|
      ensures var rest := XreadOutcome(keys[i + 1..], ids[i + 1..], blocking);
              Behind(streams, XreadOutcome(keys[i..], ids[i..], blocking)) ==
              match Reading(keys[i], ids[i], blocking)
              case Stops(text) => Blocks(keys[i], text)
              case Gives(records) => if records == [] then Behind(streams, rest) else Behind(streams + [(keys[i], records)], rest)
    {
      hide Valid, Reading;
      assert keys[i..][0] == keys[i] && keys[i..][1..] == keys[i + 1..] && ids[i..][0] == ids[i] && ids[i..][1..] == ids[i + 1..];
    }

    lemma OutcomeEnds(streams: seq<(Key, Log)>, blocking: bool)
      requires Valid()
      ensures Behind(streams, XreadOutcome([], [], blocking)) == Answers(streams)
    {}

    /** The loop of handle_xread over the keys. */
    method ReadKeys(keys: seq<Key>, ids: seq<Bytes>, blocking: bool)
      returns (blocked: Option<(Key, Bytes)>, replies: seq<(Key, seq<R.Entry>)>, ghost streams: seq<(Key, Log)>)
      requires Valid() && |keys| == |ids| && (blocking || forall k :: k in keys ==> k in store)
      ensures XreadOutcome(keys, ids, blocking) ==
              if blocked.Some? then Blocks(blocked.value.0, blocked.value.1) else Answers(streams)
      ensures |replies| == |streams|
      ensures forall j :: 0 <= j < |replies| ==> replies[j].0 == streams[j].0 && replies[j].1 == Keys(streams[j].1)
    {
      hide Valid, View, Served, Reading, Keys, XreadOutcome, Behind;
      KeysOfNone();
      blocked, streams, replies := None, [], [];
      ghost var goal := XreadOutcome(keys, ids, blocking);
      NothingBefore(goal);
      assert keys[0..] == keys && ids[0..] == ids;
      var i := 0;
      while i < |keys|
        invariant 0 <= i <= |keys| && blocked.None?
        invariant goal == Behind(streams, XreadOutcome(keys[i..], ids[i..], blocking))
        invariant |replies| == |streams|
        invariant forall j :: 0 <= j < |replies| ==> replies[j].0 == streams[j].0 && replies[j].1 == Keys(streams[j].1)
      {
        OutcomeStep(keys, ids, blocking, i, streams);
        var next := ReadKey(keys[i], ids[i], blocking);
        match next {
          case Block(text) =>
            blocked := Some((keys[i], text));
            return;
          case Entries(entries) =>
            if entries != [] {
              replies := replies + [(keys[i], entries)];
              streams := streams + [(keys[i], Reading(keys[i], ids[i], blocking).records)];
            }
        }
        i := i + 1;
      }
      assert keys[i..] == [] && ids[i..] == [];
      OutcomeEnds(streams, blocking);
    }

    /** One round of the loop of handle_xread: whether the client blocks, or what the key adds to the replies. */
    method ReadKey(key: Key, id: Bytes, blocking: bool) returns (next: KeyRead)
      requires Valid() && (blocking || key in store)
      ensures var nothing := SearchID(id, false).None? || After(View(key).log, SearchID(id, false).value) == [];
              next ==
              if blocking && (id == NEWEST || key !in store || (HoldsStream(key) && nothing)) then
                Block(if id == NEWEST && HoldsStream(key) then ToText(LastOf(View(key).log)) else id)
              else if nothing || !HoldsStream(key) then Entries([])
              else Entries(Keys(After(View(key).log, SearchID(id, false).value)))
      ensures next == match Reading(key, id, blocking) case Stops(text) => Block(text) case Gives(records) => Entries(Keys(records))
    {
      hide ToText, SearchID, Keys, Between, Reading;
      DollarNamesNothing();
      KeysOfNone();
      SearchPlus();
      ReadingMeans(key, id, blocking);
      if blocking && id == NEWEST {
        var blockOnId := id;
        if key in store && store[key].StreamObject? { blockOnId := ToText(store[key].stream.lastInsertStreamID); }
        return Block(blockOnId);
      }
      if key !in store { return Block(id); }
      if store[key].OtherType? { return Entries([]); }
      var ok, entries := store[key].stream.XrangeData(id, [PLUS], true);
      NothingToGet(store[key].stream.log, id);
      if !ok || entries == [] { return if blocking then Block(id) else Entries([]); }
      return Entries(entries);
    }
  }

  datatype KeyStep = Stops(text: Bytes) | Gives(records: Log)

  datatype KeyRead = Block(text: Bytes) | Entries(entries: seq<R.Entry>)

  /** The reply loop of handle_xread. */
  method WriteReplies(replies: seq<(Key, seq<R.Entry>)>, ghost streams: seq<(Key, Log)>) returns (text: Bytes)
    requires |replies| == |streams| && replies != []
    requires forall j :: 0 <= j < |replies| ==> replies[j].0 == streams[j].0 && replies[j].1 == Keys(streams[j].1)
    ensures text == AnswerText(streams)
  {
    hide Keys, LogReply, ArrayHeader, Bulk;
    var body := [];
    for i := 0 to |replies|
      invariant body == StreamReplies(streams[..i])
    {
      assert streams[..i + 1][..i] == streams[..i];
      var entries := WriteEntries(replies[i].1, streams[i].1);
      assert |Keys(streams[i].1)| == |streams[i].1|;
      body := body + (ArrayHeader(2) + Bulk(replies[i].0) + ArrayHeader(|replies[i].1|) + entries);
    }
    assert streams[..|replies|] == streams;
    text := ArrayHeader(|replies|) + body;
  }

  /**
   * For one key that holds no other data, handle_xread is the step of the model: with BLOCK and `$`, or nothing to
   * get, the client joins the queue of the key; otherwise it is sent what there is.
   */
  lemma OneKeyIsTheModelStep(db: DB, client: nat, key: Key, id: Bytes, blocking: bool)
    requires db.Valid() && (key in db.store ==> db.HoldsStream(key)) && (blocking || key in db.store)
    ensures var st := db.View(key);
            var nothing := SearchID(id, false).None? || After(st.log, SearchID(id, false).value) == [];
            var text := if id == NEWEST && st.present then ToText(LastOf(st.log)) else id;
            if blocking && (id == NEWEST || nothing) then
              && db.XreadOutcome([key], [id], blocking) == Blocks(key, text)
              && DoXread(st, client, id, blocking) == st.(waiting := st.waiting + [Waiter(client, text)])
            else
              && db.XreadOutcome([key], [id], blocking) == Answers(if nothing then [] else [(key, After(st.log, SearchID(id, false).value))])
              && DoXread(st, client, id, blocking) == st
  {
    hide SearchID, ToText, After;
    DollarNamesNothing();
    assert [key][1..] == [] && [id][1..] == [];
    assert db.XreadOutcome([key][1..], [id][1..], blocking) == Answers([]);
  }

  lemma NothingBefore(o: Outcome)
    ensures Behind([], o) == o
  {
    if o.Answers? { assert [] + o.streams == o.streams; }
  }

  lemma XaddTextOfOk(streamId: Bytes)
    ensures XaddText(OK(streamId)) == Bulk(streamId)
  {}

  lemma NothingToSend()
    ensures AnswerText([]) == EMPTY_ARRAY
  {}

  lemma NothingRemains(expired: set<nat>)
    ensures Remaining([], expired) == [] && Gone([], expired) == []
  {}

  lemma SomeKey(keys: set<Key>)
    ensures keys == {} || exists k :: k in keys
  {
    if forall k :: k !in keys { assert keys == {}; }
  }

  /** The null array, appended for each of some readers. */
  function Nulls(buffers: map<nat, Bytes>, gone: seq<Waiter>): map<nat, Bytes>
    decreases gone
  {
    if gone == [] then buffers else Nulls(Appended(buffers, gone[0].client, NULL_ARRAY), gone[1..])
  }

  /** And for the expired readers of some queues, one queue after the other. */
  function TimedOut(buffers: map<nat, Bytes>, queues: map<Key, seq<Waiter>>, expired: set<nat>, order: seq<Key>): map<nat, Bytes> {
    if order == [] then buffers
    else Nulls(TimedOut(buffers, queues, expired, order[..|order| - 1]), Gone(QueueIn(queues, order[|order| - 1]), expired))
  }

  lemma OneQueueMore(buffers: map<nat, Bytes>, queues: map<Key, seq<Waiter>>, expired: set<nat>, order: seq<Key>, key: Key)
    ensures TimedOut(buffers, queues, expired, []) == buffers
    ensures TimedOut(buffers, queues, expired, order + [key]) ==
            Nulls(TimedOut(buffers, queues, expired, order), Gone(QueueIn(queues, key), expired))
  {
    assert (order + [key])[..|order|] == order;
  }

  /** The loop of check_and_expire_blocked_clients over the queues of readers; an emptied queue loses its key. */
  method ExpireQueues(queues: map<Key, seq<Waiter>>, expired: set<nat>, buffers: map<nat, Bytes>)
    returns (kept: map<Key, seq<Waiter>>, written: map<nat, Bytes>, ghost order: seq<Key>)
    ensures forall k :: QueueIn(kept, k) == Remaining(QueueIn(queues, k), expired)
    ensures (forall k :: k in order <==> k in queues) && |order| == |queues|
    ensures written == TimedOut(buffers, queues, expired, order)
  {
    hide Remaining, Gone, Nulls, TimedOut;
    NothingRemains(expired);
    kept, written, order := queues, buffers, [];
    var keys: set<Key> := queues.Keys;
    OneQueueMore(buffers, queues, expired, [], []);
    while keys != {}
      invariant keys <= queues.Keys && |order| + |keys| == |queues.Keys|
      invariant forall k :: k in order <==> k in queues && k !in keys
      invariant written == TimedOut(buffers, queues, expired, order)
      invariant forall k :: k in keys ==> k in kept && kept[k] == queues[k]
      invariant forall k :: k !in keys ==> QueueIn(kept, k) == Remaining(QueueIn(queues, k), expired)
      decreases keys
    {
      SomeKey(keys);
      var key :| key in keys;
      OneQueueMore(buffers, queues, expired, order, key);
      var rest;
      rest, written := FilterReaders(kept[key], expired, written);
      kept := if rest == [] then kept - {key} else kept[key := rest];
      order := order + [key];
      keys := keys - {key};
    }
    forall k ensures k !in keys { assert keys == {}; }
  }

  lemma OneReader(w: Waiter, rest: seq<Waiter>, expired: set<nat>, buffers: map<nat, Bytes>)
    ensures Remaining([w] + rest, expired) == (if w.client in expired then [] else [w]) + Remaining(rest, expired)
    ensures Nulls(buffers, Gone([w] + rest, expired)) ==
            Nulls(if w.client in expired then Appended(buffers, w.client, NULL_ARRAY) else buffers, Gone(rest, expired))
  {
    var queue, own := [w] + rest, if w.client in expired then [w] else [];
    assert queue[0] == w && queue[1..] == rest;
    assert Gone(queue, expired) == own + Gone(rest, expired);
    assert own + Gone(rest, expired) == if own == [] then Gone(rest, expired) else [w] + Gone(rest, expired);
    if own != [] { assert (own + Gone(rest, expired))[1..] == Gone(rest, expired); }
  }

  /** The queue filter of check_and_expire_blocked_clients for blocked readers. */
  method FilterReaders(queue: seq<Waiter>, expired: set<nat>, buffers: map<nat, Bytes>)
    returns (kept: seq<Waiter>, written: map<nat, Bytes>)
    ensures kept == Remaining(queue, expired) && written == Nulls(buffers, Gone(queue, expired))
  {
    hide Remaining, Gone, Nulls, Appended;
    kept, written := [], buffers;
    NothingRemains(expired);
    assert queue[0..] == queue;
    for i := 0 to |queue|
      invariant kept + Remaining(queue[i..], expired) == Remaining(queue, expired)
      invariant Nulls(written, Gone(queue[i..], expired)) == Nulls(buffers, Gone(queue, expired))
    {
      assert queue[i..] == [queue[i]] + queue[i + 1..];
      OneReader(queue[i], queue[i + 1..], expired, written);
      if queue[i].client in expired {
        written := Appended(written, queue[i].client, NULL_ARRAY);
      } else {
        kept := kept + [queue[i]];
      }
    }
    assert queue[|queue|..] == [];
    NoNulls(written);
  }

  lemma NoNulls(buffers: map<nat, Bytes>)
    ensures Nulls(buffers, []) == buffers
  {}

  lemma DeliveredNone(buffers: map<nat, Bytes>, key: Key)
    ensures Delivered(buffers, key, []) == buffers
  {}

  lemma SearchPlus()
    ensures SearchID([PLUS], true) == Some(MAX_ID)
  {}

  lemma NothingToGet(log: Log, text: Bytes)
    ensures SearchID(text, false).Some? ==>
              var records := After(log, SearchID(text, false).value); (log == [] ==> records == []) && (Keys(records) == [] <==> records == [])
  {}

  lemma KeysOfNone()
    ensures Keys([]) == []
  {}

  lemma StreamReplyIs(key: Key, log: Log)
    ensures StreamReply(key, log) == ArrayHeader(2) + Bulk(key) + ArrayHeader(|log|) + LogReply(log)
  {}
}
