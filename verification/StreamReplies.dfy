/**
 * What a client of the stream commands reads: the texts of StreamCommands, read back by the rules of
 * the protocol (src/db/XADD/xadd_db.cpp, src/db/XREAD/xread_db.cpp, src/db/db.cpp).
 */
module StreamReplies {
  import opened Bytes
  import opened Replies
  import opened Resp
  import opened Sequences
  import opened StreamCommands
  import opened StreamIds
  import opened StreamLog
  import M = StreamModel

  // ----- records

  /** Field and value alternate, in the order of the fields. */
  lemma {:induction false} FlattenMeans(fields: seq<(Bytes, Bytes)>)
    ensures |Flatten(fields)| == 2 * |fields|
    ensures forall i {:trigger fields[i]} :: 0 <= i < |fields| ==>
              Flatten(fields)[2 * i] == fields[i].0 && Flatten(fields)[2 * i + 1] == fields[i].1
  {
    if fields != [] {
      var n := |fields| - 1;
      FlattenMeans(fields[..n]);
      forall i | 0 <= i < n ensures Flatten(fields)[2 * i] == fields[i].0 && Flatten(fields)[2 * i + 1] == fields[i].1 {
        assert fields[..n][i] == fields[i];
      }
    }
  }

  /** A record: its identifier, and its fields and values. */
  function RecordRead(r: Record): Reply { Items([Text(ToText(r.id)), Items(Texts(Sequence(r.payload, 0).1))]) }

  /** A stream: its key, and its records from the first to the last. */
  function StreamRead(key: Key, log: Log): Reply {
    Items([Text(key), Items(seq(|log|, i requires 0 <= i < |log| => RecordRead(log[i])))])
  }

  lemma PairIsRead(a: Bytes, x: Reply, b: Bytes, y: Reply)
    requires IsRead(a, x) && IsRead(b, y)
    ensures IsRead(ArrayHeader(2) + a + b, Items([x, y]))
  {
    hide IsRead, AreRead, ArrayHeader;
    NothingIsRead();
    OneMoreIsRead(b, y, [], []);
    assert b + [] == b && [y] + [] == [y];
    OneMoreIsRead(a, x, b, [y]);
    assert [x] + [y] == [x, y];
    ArrayIsRead(a + b, [x, y]);
    assert ArrayHeader(2) + (a + b) == ArrayHeader(2) + a + b;
  }

  lemma OneMoreRead(text: Bytes, replies: seq<Reply>, more: Bytes, reply: Reply)
    requires AreRead(text, replies) && IsRead(more, reply)
    ensures AreRead(text + more, replies + [reply])
  {
    hide AreRead, IsRead;
    NothingIsRead();
    OneMoreIsRead(more, reply, [], []);
    assert more + [] == more && [reply] + [] == [reply];
    MoreAreRead(text, replies, more, [reply]);
  }

  lemma RecordIsRead(r: Record)
    ensures IsRead(RecordReply(r), RecordRead(r))
  {
    hide IsRead, Bulk, BulkArray, ArrayHeader, Sequence, ToText;
    TextIsRead(ToText(r.id));
    BulkArrayIsRead(Sequence(r.payload, 0).1);
    PairIsRead(Bulk(ToText(r.id)), Text(ToText(r.id)), BulkArray(Sequence(r.payload, 0).1), Items(Texts(Sequence(r.payload, 0).1)));
  }

  lemma {:induction false} LogIsRead(log: Log)
    ensures AreRead(LogReply(log), seq(|log|, i requires 0 <= i < |log| => RecordRead(log[i])))
  {
    hide IsRead, AreRead, RecordReply, RecordRead;
    var all := seq(|log|, i requires 0 <= i < |log| => RecordRead(log[i]));
    NothingIsRead();
    if log == [] {
      assert all == [];
    } else {
      var front, last := log[..|log| - 1], log[|log| - 1];
      LogIsRead(front);
      RecordIsRead(last);
      var before := seq(|front|, i requires 0 <= i < |front| => RecordRead(front[i]));
      OneMoreRead(LogReply(front), before, RecordReply(last), RecordRead(last));
      assert all == before + [RecordRead(last)];
    }
  }

  lemma StreamIsRead(key: Key, log: Log)
    ensures IsRead(StreamReply(key, log), StreamRead(key, log))
  {
    hide IsRead, AreRead, Bulk, ArrayHeader, RecordRead, LogReply;
    var records := seq(|log|, i requires 0 <= i < |log| => RecordRead(log[i]));
    TextIsRead(key);
    LogIsRead(log);
    ArrayIsRead(LogReply(log), records);
    PairIsRead(Bulk(key), Text(key), ArrayHeader(|log|) + LogReply(log), Items(records));
    assert StreamReply(key, log) == ArrayHeader(2) + Bulk(key) + (ArrayHeader(|log|) + LogReply(log));
  }

  // ----- XREAD

  lemma {:induction false} StreamsAreRead(streams: seq<(Key, Log)>)
    ensures AreRead(StreamReplies(streams), seq(|streams|, i requires 0 <= i < |streams| => StreamRead(streams[i].0, streams[i].1)))
  {
    hide IsRead, AreRead, StreamReply, StreamRead;
    var all := seq(|streams|, i requires 0 <= i < |streams| => StreamRead(streams[i].0, streams[i].1));
    NothingIsRead();
    if streams == [] {
      assert all == [];
    } else {
      var front, last := streams[..|streams| - 1], streams[|streams| - 1];
      StreamsAreRead(front);
      StreamIsRead(last.0, last.1);
      var before := seq(|front|, i requires 0 <= i < |front| => StreamRead(front[i].0, front[i].1));
      OneMoreRead(StreamReplies(front), before, StreamReply(last.0, last.1), StreamRead(last.0, last.1));
      assert all == before + [StreamRead(last.0, last.1)];
    }
  }

  /** What handle_xread sends is read as one array: a stream for each key, in order, with all its records in order. */
  lemma AnswerIsRead(streams: seq<(Key, Log)>)
    ensures IsRead(AnswerText(streams), Items(seq(|streams|, i requires 0 <= i < |streams| => StreamRead(streams[i].0, streams[i].1))))
  {
    hide IsRead, AreRead, ArrayHeader, StreamReplies, StreamRead;
    var all := seq(|streams|, i requires 0 <= i < |streams| => StreamRead(streams[i].0, streams[i].1));
    if streams == [] {
      BulkArrayIsRead([]);
      assert all == [];
    } else {
      StreamsAreRead(streams);
      ArrayIsRead(StreamReplies(streams), all);
    }
  }

  /** What a woken reader reads: an array of the one stream, or the null array if there is nothing for it. */
  lemma WakeIsRead(key: Key, records: Log)
    ensures IsRead(WakeText(key, records), if records == [] then NoItems else Items([StreamRead(key, records)]))
  {
    hide IsRead, AreRead, ArrayHeader, StreamReply, StreamRead;
    NullsAreRead();
    StreamIsRead(key, records);
    NothingIsRead();
    OneMoreIsRead(StreamReply(key, records), StreamRead(key, records), [], []);
    assert StreamReply(key, records) + [] == StreamReply(key, records) && [StreamRead(key, records)] + [] == [StreamRead(key, records)];
    ArrayIsRead(StreamReply(key, records), [StreamRead(key, records)]);
  }

  function WakeRead(key: Key, records: Log): Reply { if records == [] then NoItems else Items([StreamRead(key, records)]) }

  lemma {:induction false} DeliveredMore(buffers: map<nat, Bytes>, key: Key, replies: seq<M.Reply>, r: M.Reply)
    ensures Delivered(buffers, key, replies + [r]) == Appended(Delivered(buffers, key, replies), r.client, WakeText(key, r.records))
    decreases |replies|
  {
    hide Appended, WakeText;
    if replies == [] {
      assert replies + [r] == [r] && [r][1..] == [];
      assert Delivered(Appended(buffers, r.client, WakeText(key, r.records)), key, []) == Appended(buffers, r.client, WakeText(key, r.records));
    } else {
      assert (replies + [r])[1..] == replies[1..] + [r];
      DeliveredMore(Appended(buffers, replies[0].client, WakeText(key, replies[0].records)), key, replies[1..], r);
    }
  }

  lemma OneMoreWake(buffers: map<nat, Bytes>, key: Key, replies: seq<M.Reply>, r: M.Reply, c: nat)
    ensures BufferOf(Delivered(buffers, key, replies + [r]), c) ==
            BufferOf(Delivered(buffers, key, replies), c) + if r.client == c then WakeText(key, r.records) else []
  {
    hide WakeText;
    DeliveredMore(buffers, key, replies, r);
  }

  function WakesRead(key: Key, replies: seq<M.Reply>): seq<Reply> {
    seq(|replies|, i requires 0 <= i < |replies| => WakeRead(key, replies[i].records))
  }

  /** Of the replies to woken readers, each client is told its own, in their order, and nothing else. */
  lemma {:induction false} WokenAreTold(buffers: map<nat, Bytes>, key: Key, replies: seq<M.Reply>, c: nat)
    returns (at: seq<nat>, own: seq<M.Reply>, text: Bytes)
    ensures Selects(replies, at, own) && forall p: nat {:trigger p in at} :: p in at <==> p < |replies| && replies[p].client == c
    ensures BufferOf(Delivered(buffers, key, replies), c) == BufferOf(buffers, c) + text && AreRead(text, WakesRead(key, own))
    decreases |replies|
  {
    hide AreRead, IsRead, Delivered, BufferOf, WakeText, WakeRead;
    if replies == [] {
      at, own, text := [], [], [];
      DeliveredNone(buffers, key);
      NothingIsRead();
      assert WakesRead(key, []) == [] && BufferOf(buffers, c) + [] == BufferOf(buffers, c);
    } else {
      var n := |replies| - 1;
      var front, r := replies[..n], replies[n];
      at, own, text := WokenAreTold(buffers, key, front, c);
      hide Selects;
      assert replies == front + [r];
      OneMoreWake(buffers, key, front, r, c);
      if r.client == c {
        WokenIsRead(key, r.records);
        OneMoreRead(text, WakesRead(key, own), WakeText(key, r.records), WakeRead(key, r.records));
        assert WakesRead(key, own + [r]) == WakesRead(key, own) + [WakeRead(key, r.records)];
        assert BufferOf(buffers, c) + text + WakeText(key, r.records) == BufferOf(buffers, c) + (text + WakeText(key, r.records));
        SelectsMore(front, at, own, r);
        at, own, text := at + [n], own + [r], text + WakeText(key, r.records);
      } else {
        SelectsLess(front, at, own, r);
      }
    }
  }

  lemma WokenIsRead(key: Key, records: Log)
    ensures IsRead(WakeText(key, records), WakeRead(key, records))
  {
    hide IsRead, WakeText;
    WakeIsRead(key, records);
  }

  // ----- XADD

  const INVALID := "Invalid stream ID format"
  const TOO_SMALL := "The ID specified in XADD " + "is equal or smaller than " + "the target stream top item"
  const ZERO_GIVEN := "The ID specified in XADD " + "must be greater than 0-0"

  predicate OneLine(s: string) { forall i :: 0 <= i < |s| ==> s[i] as int % 0x100 != 13 }

  lemma OneLineParts(a: string, b: string)
    requires OneLine(a) && OneLine(b)
    ensures OneLine(a + b)
  {}

  lemma FirstIsLine()
    ensures OneLine(INVALID)
  {}

  lemma SecondIsLine()
    ensures OneLine("The ID specified in XADD ")
  {}

  lemma ThirdIsLine()
    ensures OneLine("is equal or smaller than ")
  {}

  lemma FourthIsLine()
    ensures OneLine("the target stream top item")
  {}

  lemma FifthIsLine()
    ensures OneLine("must be greater than 0-0")
  {}

  lemma MessagesAreLines()
    ensures OneLine(INVALID) && OneLine(TOO_SMALL) && OneLine(ZERO_GIVEN)
  {
    hide OneLine;
    FirstIsLine();
    SecondIsLine();
    ThirdIsLine();
    FourthIsLine();
    FifthIsLine();
    OneLineParts("The ID specified in XADD ", "must be greater than 0-0");
    OneLineParts("The ID specified in XADD ", "is equal or smaller than ");
    OneLineParts("The ID specified in XADD " + "is equal or smaller than ", "the target stream top item");
  }

  lemma LineIsRead(message: string)
    requires OneLine(message)
    ensures IsRead(Error(message), Failure(Ascii("ERR ") + Ascii(message)))
  {
    assert CR !in Ascii(message);
    hide IsRead, Ascii, Error;
    ErrorIsRead(message);
  }

  /** What the client of XADD reads, and when: one of three errors, or the text of the identifier that was stored. */
  lemma XaddReplyMeans(text: Bytes, last: StreamID, now: Word64)
    ensures var reply, id := XaddText(Judge(text, last, now)), InsertID(text, last, now);
            if id.None? then IsRead(reply, Failure(Ascii("ERR ") + Ascii("Invalid stream ID format")))
            else if id.value.ms == 0 && id.value.num == 0 then
              IsRead(reply, Failure(Ascii("ERR ") + Ascii("The ID specified in XADD " + "must be greater than 0-0")))
            else if !id.value.Greater(last) then
              IsRead(reply, Failure(Ascii("ERR ") + Ascii("The ID specified in XADD " + "is equal or smaller than " + "the target stream top item")))
            else IsRead(reply, Text(ToText(id.value)))
  {
    hide IsRead, Error, Ascii, InsertID, ToText, Bulk;
    MessagesAreLines();
    hide OneLine;
    LineIsRead(INVALID);
    LineIsRead(TOO_SMALL);
    LineIsRead(ZERO_GIVEN);
    if InsertID(text, last, now).Some? { TextIsRead(ToText(InsertID(text, last, now).value)); }
  }

  // ----- expiry

  lemma {:induction false} NullsMore(buffers: map<nat, Bytes>, gone: seq<M.Waiter>, w: M.Waiter)
    ensures Nulls(buffers, gone + [w]) == Appended(Nulls(buffers, gone), w.client, NULL_ARRAY)
    decreases |gone|
  {
    hide Appended;
    if gone == [] {
      assert Nulls(Appended(buffers, w.client, NULL_ARRAY), []) == Appended(buffers, w.client, NULL_ARRAY);
      assert (gone + [w])[1..] == [];
    } else {
      assert (gone + [w])[1..] == gone[1..] + [w];
      NullsMore(Appended(buffers, gone[0].client, NULL_ARRAY), gone[1..], w);
    }
  }

  lemma OneMoreTold(buffers: map<nat, Bytes>, gone: seq<M.Waiter>, w: M.Waiter, c: nat)
    ensures BufferOf(Nulls(buffers, gone + [w]), c) == BufferOf(Nulls(buffers, gone), c) + if w.client == c then NULL_ARRAY else []
  {
    NullsMore(buffers, gone, w);
  }

  lemma OneMoreNull(text: Bytes, n: nat)
    requires AreRead(text, seq(n, _ => NoItems))
    ensures AreRead(text + NULL_ARRAY, seq(n + 1, _ => NoItems))
  {
    hide AreRead, IsRead;
    NullsAreRead();
    OneMoreRead(text, seq(n, _ => NoItems), NULL_ARRAY, NoItems);
    assert seq(n, _ => NoItems) + [NoItems] == seq(n + 1, _ => NoItems);
  }

  /** The readers of a queue whose clients have not expired stay in it, in order. */
  lemma {:induction false} ReadersStay(waiting: seq<M.Waiter>, expired: set<nat>) returns (stay: seq<nat>)
    ensures Selects(waiting, stay, M.Remaining(waiting, expired))
    ensures forall p: nat {:trigger p in stay} :: p in stay <==> p < |waiting| && waiting[p].client !in expired
    decreases |waiting|
  {
    if waiting == [] {
      stay := [];
    } else {
      var n := |waiting| - 1;
      var front, w := waiting[..n], waiting[n];
      stay := ReadersStay(front, expired);
      assert waiting == front + [w];
      OneReaderMore(front, w, expired);
      var kept := M.Remaining(front, expired);
      hide M.Remaining;
      if w.client in expired {
        SelectsLess(front, stay, kept, w);
        assert kept + [] == kept;
      } else {
        SelectsMore(front, stay, kept, w);
        stay := stay + [n];
      }
    }
  }

  /** An expired client is told nothing but one null array for each of its places in the queue; nobody else is told anything. */
  lemma {:induction false} ReadersAreTold(buffers: map<nat, Bytes>, waiting: seq<M.Waiter>, expired: set<nat>, c: nat)
    returns (at: seq<nat>, text: Bytes)
    ensures forall p: nat {:trigger p in at} :: p in at <==> p < |waiting| && waiting[p].client == c && c in expired
    ensures forall i, j :: 0 <= i < j < |at| ==> at[i] < at[j]
    ensures BufferOf(Nulls(buffers, M.Gone(waiting, expired)), c) == BufferOf(buffers, c) + text && AreRead(text, seq(|at|, _ => NoItems))
    decreases |waiting|
  {
    hide AreRead, Nulls, BufferOf;
    if waiting == [] {
      at, text := [], [];
      NoNulls(buffers);
      NothingIsRead();
      assert seq(0, _ => NoItems) == [];
      assert BufferOf(buffers, c) + [] == BufferOf(buffers, c);
    } else {
      var n := |waiting| - 1;
      var front, w := waiting[..n], waiting[n];
      at, text := ReadersAreTold(buffers, front, expired, c);
      assert waiting == front + [w];
      OneReaderMore(front, w, expired);
      var gone := M.Gone(front, expired);
      hide M.Gone;
      assert gone + [] == gone;
      if w.client in expired {
        OneMoreTold(buffers, gone, w, c);
        if w.client == c {
          OneMoreNull(text, |at|);
          assert BufferOf(buffers, c) + text + NULL_ARRAY == BufferOf(buffers, c) + (text + NULL_ARRAY);
          forall i | 0 <= i < |at| ensures at[i] < n { assert at[i] in at; }
          at, text := at + [n], text + NULL_ARRAY;
        }
      }
    }
  }

  lemma {:induction false} OneReaderMore(waiting: seq<M.Waiter>, w: M.Waiter, expired: set<nat>)
    ensures M.Remaining(waiting + [w], expired) == M.Remaining(waiting, expired) + if w.client in expired then [] else [w]
    ensures M.Gone(waiting + [w], expired) == M.Gone(waiting, expired) + if w.client in expired then [w] else []
    decreases |waiting|
  {
    if waiting == [] {
      assert waiting + [w] == [w] && [w][1..] == [];
    } else {
      assert (waiting + [w])[1..] == waiting[1..] + [w];
      OneReaderMore(waiting[1..], w, expired);
    }
  }
}
