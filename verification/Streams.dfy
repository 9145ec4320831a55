/** The Stream class: a radix tree of 16-byte keys kept in step with an append-only log (src/stream.h, src/stream.cpp). */
module Streams {
  import opened Bytes
  import opened Decimal
  import opened LexOrder
  import opened StreamIds
  import opened StreamLog
  import opened RadixNodes
  import R = RadixTree

  class Stream {
    var radixTree: RadixIndex?
    var lastInsertStreamID: StreamID
    ghost var log: Log
    ghost var repr: set<object>

    /** The memory of the tree. */
    ghost predicate Housed()
      reads this`radixTree, this`repr, repr
    {
      && this !in repr
      && (radixTree != null ==>
            && radixTree in repr && (radixTree.root != null ==> radixTree.root in repr) && radixTree.Repr() <= repr
            && radixTree.Valid())
    }

    ghost function Tree(): R.Tree
      reads this`radixTree, this`repr, repr
      requires Housed()
    { if radixTree == null then R.EMPTY_TREE else radixTree.Value() }

    /** The tree holds exactly the log, in its order, and the last identifier is the one of the log. */
    ghost predicate Valid()
      reads this, repr
    {
      && Housed() && R.Entries(Tree(), []) == Keys(log)
      && (radixTree == null <==> log == [])
      && lastInsertStreamID == LastOf(log) && Increasing(log)
    }

    constructor ()
      ensures Valid() && log == [] && repr == {}
    {
      radixTree, lastInsertStreamID := null, ZERO_ID;
      log, repr := [], {};
      new;
      assert R.Entries(R.EMPTY_TREE, []) == [];
    }

    /** fromString. */
    method FromString(str: Bytes, now: Word64) returns (out: Option<StreamID>)
      ensures out == InsertID(str, lastInsertStreamID, now)
    {
      if str == [STAR] { return Some(StreamID(now, if lastInsertStreamID.ms == now then 1 else 0)); }
      var dashPos := DashPos(str);
      if dashPos == None { return None; }
      var seqStr := str[dashPos.value + 1..];
      var ms := ConvertPositive(str[..dashPos.value]);
      if ms == None { return None; }
      if seqStr == [STAR] {
        return Some(StreamID(ms.value, if lastInsertStreamID.ms == ms.value then (lastInsertStreamID.num + 1) % TWO64 else 0));
      }
      var num := ConvertPositive(seqStr);
      if num == None { return None; }
      return Some(StreamID(ms.value, num.value));
    }

    /** fromStringForSearch. */
    static method FromStringForSearch(text: Bytes, isEndKey: bool) returns (out: Option<StreamID>)
      ensures out == SearchID(text, isEndKey)
    {
      hide Print, Value;
      var str := text;
      if str == [MINUS] { return Some(ZERO_ID); }
      if str == [PLUS] { return Some(MAX_ID); }
      if DashPos(str) == None {
        var number := Print(if isEndKey then UINT64_MAX else 0);
        DashAt(str, number);
        str := str + [MINUS] + number;
      }
      var dashPos := DashPos(str);
      var ms := ConvertPositive(str[..dashPos.value]);
      if ms == None { return None; }
      var num := ConvertPositive(str[dashPos.value + 1..]);
      if num == None { return None; }
      return Some(StreamID(ms.value, num.value));
    }

    /** insert. */
    method Insert(streamId: Bytes, value: Bytes, now: Word64) returns (status: StreamStatus)
      requires Valid()
      modifies this, repr
      ensures Valid() && fresh(repr - old(repr))
      ensures status == Judge(streamId, LastOf(old(log)), now)
      ensures log == Add(old(log), Attempt(streamId, value, now))
    {
      hide InsertID, ToText, Increasing;
      var sid := FromString(streamId, now);
      if sid == None { return InvalidIdFormat; }
      var id := sid.value;
      if id.ms == 0 && id.num == 0 { return NotGreaterThanZero; }
      if lastInsertStreamID.ms != 0 || lastInsertStreamID.num != 0 {
        if !id.Greater(lastInsertStreamID) { return IdNotGreaterThanLast; }
      }
      Append(id, value);
      return OK(ToText(id));
    }

    /** The part of insert that stores an accepted record. */
    method Append(id: StreamID, value: Bytes)
      requires Valid() && id != ZERO_ID && (LastOf(log) == ZERO_ID || id.Greater(LastOf(log)))
      modifies this, repr
      ensures Valid() && fresh(repr - old(repr))
      ensures log == old(log) + [Record(id, value)]
    {
      hide R.Entries, R.Insert, ToBinary, Keys, Increasing, Housed, Tree;
      TreeIsWellFormed();
      NewRecord(log, Record(id, value), Tree());
      InsertKey(ToBinary(id), value);
      lastInsertStreamID := id;
      log := log + [Record(id, value)];
    }

    lemma TreeIsWellFormed()
      requires Housed()
      ensures this !in repr && R.WellFormed(Tree()) && (radixTree == null ==> Tree() == R.EMPTY_TREE)
    {}

    /** The insertion into the tree, which is made when there is none. */
    method InsertKey(key: Bytes, value: Bytes)
      requires Housed()
      modifies this`radixTree, this`repr, repr
      ensures Housed() && this !in repr && radixTree != null && fresh(repr - old(repr))
      ensures Tree() == R.Insert(old(Tree()), key, value)
    {
      hide R.Insert, R.WellFormed;
      if radixTree == null { radixTree := new RadixIndex(); }
      radixTree.Insert(key, value);
      repr := repr + {radixTree} + radixTree.Repr();
    }

    /** xrangeData: the entries of the log in the range, unless a text is malformed or nothing was ever inserted. */
    method XrangeData(startText: Bytes, endText: Bytes, isExclusive: bool) returns (ok: bool, result: seq<R.Entry>)
      requires Valid()
      ensures ok <==> SearchID(startText, false).Some? && SearchID(endText, true).Some? && log != []
      ensures ok ==> result == Keys(Between(log, SearchID(startText, false).value, SearchID(endText, true).value, isExclusive))
      ensures !ok ==> result == []
    {
      var startId := FromStringForSearch(startText, false);
      if startId == None { return false, []; }
      var endId := FromStringForSearch(endText, true);
      if endId == None { return false, []; }
      if radixTree == null { return false, []; }
      SelectKeys(log, startId.value, endId.value, isExclusive);
      result := radixTree.RangeSearch(ToBinary(startId.value), ToBinary(endId.value), isExclusive);
      ok := true;
    }
  }

  /** A record with a greater identifier goes to the end of the entries of the tree. */
  lemma NewRecord(log: Log, r: Record, t: R.Tree)
    requires R.WellFormed(t) && Increasing(log) && r.id != ZERO_ID && (LastOf(log) == ZERO_ID || r.id.Greater(LastOf(log)))
    requires R.Entries(t, []) == Keys(log)
    ensures R.Entries(R.Insert(t, ToBinary(r.id), r.payload), []) == Keys(log + [r])
    ensures Increasing(log + [r])
  {
    hide R.Insert, R.Entries, ToBinary;
    forall e | e in Keys(log) ensures Lt(e.0, ToBinary(r.id)) { KeyBefore(log, r, e); }
    AppendsEntry(t, ToBinary(r.id), r.payload);
    KeysConcat(log, [r]);
    assert Keys([r]) == [KeyOf(r)];
  }

  lemma KeyBefore(log: Log, r: Record, e: R.Entry)
    requires Increasing(log) && e in Keys(log) && r.id.Greater(LastOf(log))
    ensures Lt(e.0, ToBinary(r.id))
  {
    hide ToBinary;
    var i :| 0 <= i < |log| && Keys(log)[i] == e;
    KeysAt(log, i);
    BinaryOrder(log[i].id, r.id);
  }
}
