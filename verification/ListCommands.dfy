/**
 * The list commands of DB (src/db/PUSH, LPOP, BLPOP, LRANGE, src/db/db.cpp): the store maps
 * keys to listpacks in memory and the blocked clients wait in queues. Each command refines,
 * for the key it is about, the command of ListModel, and leaves every other key alone.
 */
module ListCommands {
  import opened Bytes
  import opened ListModel
  import opened ListpackStrings
  import opened Replies
  import opened Resp
  import opened Sequences

  type Key = Bytes

  datatype RedisObject = ListPack(lp: array<Byte>) | OtherType

  // ----- replies

  /** handle_lpop: nothing taken is a null bulk string, one value a bulk string, several are an array. */
  function LpopText(taken: seq<Bytes>): Bytes {
    if taken == [] then NULL_BULK else if |taken| == 1 then Bulk(taken[0]) else BulkArray(taken)
  }

  /** handle_blpop: the key and the value, a null bulk string, or nothing yet. */
  function BlpopText(key: Key, answer: BlpopReply): Option<Bytes> {
    match answer
    case Value(v) => Some(BulkArray([key, v]))
    case NullReply => Some(NULL_BULK)
    case Waits => None
  }

  /** The null array for each client whose time is up. */
  function TimeoutReplies(expired: seq<Blocked>): seq<(Blocked, Bytes)> {
    if expired == [] then [] else [(expired[0], NULL_ARRAY)] + TimeoutReplies(expired[1..])
  }

  // ----- the store

  /** The listpacks of a store. */
  ghost function Arrays(store: map<Key, RedisObject>): set<array<Byte>> {
    set k | k in store && store[k].ListPack? :: store[k].lp
  }

  /**
   * Each list key has its own listpack, with the strings that `strings` says, whose header says how many there
   * are unless the key is `uncounted`.
   */
  ghost predicate Filed(store: map<Key, RedisObject>, strings: map<Key, seq<Bytes>>, uncounted: set<Key>)
    reads Arrays(store)
  {
    && (forall k :: k in strings <==> k in store && store[k].ListPack?)
    && uncounted <= strings.Keys
    && (forall k :: k in strings ==> Shows(store[k].lp[..], strings[k], k !in uncounted))
    && (forall k, l :: k in strings && l in strings && k != l ==> store[k].lp != store[l].lp)
  }

  lemma InArrays(store: map<Key, RedisObject>, key: Key)
    requires key in store && store[key].ListPack?
    ensures store[key].lp in Arrays(store)
  {}

  lemma ArraysSplit(store: map<Key, RedisObject>, key: Key)
    ensures Arrays(store - {key}) <= Arrays(store)
    ensures key in store && store[key].ListPack? ==> Arrays(store) == Arrays(store - {key}) + {store[key].lp}
  {
    if key in store && store[key].ListPack? {
      forall lp | lp in Arrays(store) ensures lp in Arrays(store - {key}) + {store[key].lp} {
        var k :| k in store && store[k].ListPack? && store[k].lp == lp;
        assert k != key ==> k in store - {key};
      }
    }
  }

  /** The key and the others, taken apart. */
  lemma FiledSplit(store: map<Key, RedisObject>, strings: map<Key, seq<Bytes>>, uncounted: set<Key>, key: Key)
    requires Filed(store, strings, uncounted)
    ensures Filed(store - {key}, strings - {key}, uncounted - {key})
    ensures key in strings <==> key in store && store[key].ListPack?
    ensures key in uncounted ==> key in strings
    ensures key in strings ==> store[key].lp !in Arrays(store - {key})
    ensures key in strings ==> Shows(store[key].lp[..], strings[key], key !in uncounted)
  {
    hide Shows;
  }

  /** And put together again. */
  lemma FiledJoin(store: map<Key, RedisObject>, strings: map<Key, seq<Bytes>>, uncounted: set<Key>, key: Key)
    requires Filed(store - {key}, strings - {key}, uncounted - {key})
    requires key in store && store[key].ListPack? && key in strings && store[key].lp !in Arrays(store - {key})
    requires Shows(store[key].lp[..], strings[key], key !in uncounted)
    ensures Filed(store, strings, uncounted)
  {
    hide Shows, Arrays;
    var others := store - {key};
    forall k ensures k in strings <==> k in store && store[k].ListPack? {
      assert k != key ==> (k in strings - {key} <==> k in others && others[k].ListPack?);
    }
    forall k | k in strings && k != key
      ensures k in strings - {key} && k in others && others[k] == store[k]
      ensures Shows(store[k].lp[..], strings[k], k !in uncounted) && store[k].lp in Arrays(others)
    {
      InArrays(others, k);
    }
    forall k | k in uncounted ensures k in strings { assert k != key ==> k in uncounted - {key}; }
  }

  class DB {
    var store: map<Key, RedisObject>
    var blockedKeys: map<Key, seq<Blocked>>
    /** Numbers the clients that block on a key; it only names them. */
    var arrived: map<Key, nat>
    /** The strings in the listpack of each list key, and the keys whose header does not say how many. */
    ghost var strings: map<Key, seq<Bytes>>
    ghost var uncounted: set<Key>

    ghost function Lists(): set<array<Byte>>
      reads this`store
    { Arrays(store) }

    ghost predicate Valid()
      reads this`store, this`strings, this`uncounted, Arrays(store)
    { Filed(store, strings, uncounted) }

    /** What Valid says of the other keys. */
    ghost predicate Others(key: Key)
      reads this`store, this`strings, this`uncounted, Arrays(store - {key})
    { Filed(store - {key}, strings - {key}, uncounted - {key}) }

    /** What the model sees of a key. */
    ghost function View(k: Key): KeyState
      reads this
    {
      KeyState(if k in strings then Some(strings[k]) else None,
               k !in uncounted,
               k in store && store[k].OtherType?,
               QueueIn(blockedKeys, k),
               if k in arrived then arrived[k] else 0)
    }

    ghost predicate IsList(k: Key)
      reads this`store
    { k in store && store[k].ListPack? }

    ghost predicate ListOrAbsent(k: Key)
      reads this`store
    { k in store ==> store[k].ListPack? }

    constructor ()
      ensures Valid() && Lists() == {} && forall k :: View(k) == FRESH
    {
      store, blockedKeys, arrived, strings, uncounted := map[], map[], map[], map[], {};
    }

    lemma ListView(key: Key)
      requires Valid()
      ensures View(key).list.Some? <==> IsList(key)
      ensures View(key).other <==> key in store && !IsList(key)
      ensures View(key).list.None? ==> View(key).counted
      ensures IsList(key) ==> key in strings && View(key).list == Some(strings[key]) && (View(key).counted <==> key !in uncounted)
    {
      FiledSplit(store, strings, uncounted, key);
    }

    /** What the listpack of the key holds now, when the others are as before. */
    ghost method Recount(key: Key, ws: seq<Bytes>, counted: bool)
      requires Others(key) && IsList(key) && store[key].lp !in Arrays(store - {key}) && Shows(store[key].lp[..], ws, counted)
      modifies this`strings, this`uncounted
      ensures Valid()
      ensures View(key) == old(View(key)).(list := Some(ws), counted := counted)
      ensures forall k :: k != key ==> View(k) == old(View(k))
    {
      hide Shows, Filed, Arrays;
      ghost var before, marked := strings - {key}, uncounted - {key};
      strings := strings[key := ws];
      uncounted := if counted then marked else uncounted + {key};
      assert strings - {key} == before && uncounted - {key} == marked;
      FiledJoin(store, strings, uncounted, key);
    }

    /** Stores a listpack under a key. */
    method Put(key: Key, lp: array<Byte>, ghost ws: seq<Bytes>, ghost counted: bool)
      requires Others(key) && lp !in Arrays(store - {key}) && Shows(lp[..], ws, counted)
      modifies this`store, this`strings, this`uncounted
      ensures Valid() && IsList(key) && Lists() == Arrays(old(store) - {key}) + {lp}
      ensures View(key) == old(View(key)).(list := Some(ws), counted := counted, other := false)
      ensures forall k :: k != key ==> View(k) == old(View(k))
    {
      hide Shows, Filed, Arrays;
      ghost var others := store - {key};
      store := store[key := ListPack(lp)];
      assert store - {key} == others;
      ArraysSplit(store, key);
      Recount(key, ws, counted);
    }

    /** push_value_to_list: create_new_list for a missing key, append_to_existing_list otherwise. */
    method PushValueToList(key: Key, value: Bytes, prepend: bool) returns (len: nat)
      requires Valid() && ListOrAbsent(key)
      requires Fits(value) && ListSize(Extended(View(key).Strings(), value, prepend)) <= UINT32_MAX
      requires prepend ==> FirstStorable(View(key).Strings())
      modifies this`store, this`strings, this`uncounted, Lists()
      ensures Valid() && fresh(Lists() - old(Lists())) && ListOrAbsent(key)
      ensures View(key) == Holding(old(View(key)), Extended(old(View(key)).Strings(), value, prepend))
      ensures forall k :: k != key ==> View(k) == old(View(k))
      ensures len == View(key).Shown()
    {
      hide Filed, Fits, FirstStorable, ListSize, Shows;
      ListView(key);
      ArraysSplit(store, key);
      FiledSplit(store, strings, uncounted, key);
      var lp;
      if key !in store {
        lp, len := CreateList(value, prepend);
        Put(key, lp, [value], true);
      } else {
        ghost var ws, counted := strings[key], key !in uncounted;
        lp, len := AppendToList(store[key].lp, value, prepend, ws, counted);
        Put(key, lp, Extended(ws, value, prepend), counted && |ws| + 1 < UINT16_MAX);
      }
    }

    /** What handle_push is about to store. */
    ghost function ToStore(key: Key, values: seq<Bytes>): seq<Bytes>
      reads this
    { if Hands(View(key), values) then values[1..] else values }

    /**
     * The key can hold a list, every value fits, the listpack stays below 2^32 bytes, and prepending never finds a
     * 64-bit integer at the front.
     */
    ghost predicate CanStore(key: Key, values: seq<Bytes>, prepend: bool)
      reads this
    {
      values != [] ==>
        && ListOrAbsent(key)
        && (forall i :: 0 <= i < |values| ==> Fits(values[i]))
        && ListSize(PushAll(View(key).Strings(), values, prepend)) <= UINT32_MAX
        && (prepend ==> FirstStorable(View(key).Strings()) && AllStorable(values[..|values| - 1]))
    }

    /** The push loop; `len` is what the last push reported, 0 for no value. */
    method PushValues(key: Key, values: seq<Bytes>, prepend: bool) returns (len: nat)
      requires Valid() && CanStore(key, values, prepend)
      modifies this`store, this`strings, this`uncounted, Lists()
      ensures Valid() && fresh(Lists() - old(Lists()))
      ensures View(key) == Grown(old(View(key)), values, prepend)
      ensures forall k :: k != key ==> View(k) == old(View(k))
      ensures len == if values == [] then 0 else View(key).Shown()
    {
      hide Fits, FirstStorable, AllStorable, ListSize, Valid, View, Grown, Holding, Extended;
      len := 0;
      ghost var goal := PushAll(View(key).Strings(), values, prepend);
      var i := 0;
      assert values[0..] == values;
      while i < |values|
        invariant 0 <= i <= |values|
        invariant Valid() && fresh(Lists() - old(Lists())) && (values != [] ==> ListOrAbsent(key))
        invariant PushAll(View(key).Strings(), values[i..], prepend) == goal
        invariant Grown(View(key), values[i..], prepend) == Grown(old(View(key)), values, prepend)
        invariant len == if i == 0 then 0 else View(key).Shown()
        invariant prepend && i < |values| ==> FirstStorable(View(key).Strings())
        invariant forall k :: k != key ==> View(k) == old(View(k))
      {
        ghost var st := View(key);
        assert values[i..][0] == values[i] && values[i..][1..] == values[i + 1..];
        FitsIsShort(values[i]);
        TailIsShort(values, values[i + 1..]);
        if prepend && i + 1 < |values| { NewFirst(st.Strings(), values, i); }
        PushAllGrows(Extended(st.Strings(), values[i], prepend), values[i + 1..], prepend);
        GrownStep(st, values[i..], prepend);
        HoldingStrings(st, Extended(st.Strings(), values[i], prepend));
        len := PushValueToList(key, values[i], prepend);
        i := i + 1;
      }
      GrownNothing(View(key), values[i..], prepend);
    }

    /**
     * handle_push. With clients waiting, the first one gets the first value instead of the list.
     * Storing to a key of another type fails an assert, so that is required of the caller.
     */
    method HandlePush(key: Key, values: seq<Bytes>, prepend: bool) returns (reply: Bytes, handed: Option<(Blocked, Bytes)>)
      requires Valid() && CanStore(key, ToStore(key, values), prepend)
      modifies this, Lists()
      ensures Valid() && fresh(Lists() - old(Lists()))
      ensures View(key) == DoPush(old(View(key)), values, prepend)
      ensures forall k :: k != key ==> View(k) == old(View(k))
      ensures handed.Some? <==> old(View(key)).queue != [] && values != []
      ensures handed.Some? ==>
                && handed.value == (old(View(key)).queue[0], BulkArray([key, values[0]]))
                && Delivered(old(View(key)).queue[0].arrival, values[0]) in PushEvents(old(View(key)), values)
                && multiset(old(View(key)).Strings()) + multiset(values) == multiset{values[0]} + multiset(View(key).Strings())
      ensures handed.None? ==> multiset(old(View(key)).Strings()) + multiset(values) == multiset(View(key).Strings())
      ensures reply == Integer(if handed.Some? then |values|
                               else if values == [] then 0
                               else if View(key).counted then |View(key).Strings()|
                               else UINT16_MAX)
    {
      PushConservesAll(View(key), values, prepend);
      hide Valid, Fits, FirstStorable, AllStorable, ListSize, Grown, Bulk, BulkArray, Integer;
      if key in blockedKeys && blockedKeys[key] != [] && values != [] {
        var front := PopBlocked(key);
        handed := Some((front, BulkArray([key, values[0]])));
        var len := PushValues(key, values[1..], prepend);
        return Integer(|values|), handed;
      }
      NoHandOff(View(key), values, prepend);
      var len := PushValues(key, values, prepend);
      return Integer(len), None;
    }

    /** front and pop of a queue; an emptied queue loses its key. */
    method PopBlocked(key: Key) returns (front: Blocked)
      requires key in blockedKeys && blockedKeys[key] != []
      modifies this`blockedKeys
      ensures front == old(View(key)).queue[0] && View(key) == old(View(key)).(queue := old(View(key)).queue[1..])
      ensures forall k :: k != key ==> View(k) == old(View(k))
    {
      var queue := blockedKeys[key];
      front := queue[0];
      blockedKeys := if queue[1..] == [] then blockedKeys - {key} else blockedKeys[key := queue[1..]];
    }

    /** The pop shared by handle_lpop and handle_blpop, on a key that holds a list. */
    method PopValue(key: Key) returns (value: Option<Bytes>)
      requires Valid() && IsList(key) && FirstStorable(View(key).Strings())
      modifies this`store, this`strings, this`uncounted, Lists()
      ensures Valid() && fresh(Lists() - old(Lists())) && IsList(key)
      ensures var ws := old(View(key)).Strings();
              && value == (if ws == [] then None else Some(ws[0]))
              && View(key) == old(View(key)).(list := Some(if ws == [] then [] else ws[1..]))
      ensures forall k :: k != key ==> View(k) == old(View(k))
    {
      hide Filed, Shows, FirstStorable;
      ListView(key);
      ArraysSplit(store, key);
      FiledSplit(store, strings, uncounted, key);
      ghost var ws, counted := strings[key], key !in uncounted;
      var lp;
      value, lp := PopString(store[key].lp, ws, counted);
      Put(key, lp, if ws == [] then [] else ws[1..], counted);
    }

    /** The loop of handle_lpop. */
    method PopValues(key: Key, count: nat) returns (result: seq<Bytes>)
      requires Valid() && IsList(key) && CanTake(View(key).Strings(), count)
      modifies this`store, this`strings, this`uncounted, Lists()
      ensures Valid() && fresh(Lists() - old(Lists()))
      ensures |result| == Min(count, |old(View(key)).Strings()|) && result == old(View(key)).Strings()[..|result|]
      ensures View(key) == old(View(key)).(list := Some(old(View(key)).Strings()[|result|..]))
      ensures forall k :: k != key ==> View(k) == old(View(k))
    {
      hide Valid, View, Filed, FirstStorable;
      ListView(key);
      ghost var ws := View(key).Strings();
      var totalCount: nat := count;
      result := [];
      while totalCount > 0
        invariant Valid() && fresh(Lists() - old(Lists())) && IsList(key)
        invariant |result| <= |ws| && result == ws[..|result|] && count == totalCount + |result|
        invariant View(key) == old(View(key)).(list := Some(ws[|result|..]))
        invariant forall k :: k != key ==> View(k) == old(View(k))
        decreases totalCount
      {
        ghost var left := ws[|result|..];
        assert View(key).Strings() == left;
        CanTakeNext(ws, count, |result|);
        var value := PopValue(key);
        if value == None {
          assert left == [] && |result| == |ws|;
          break;
        }
        result := result + [value.value];
        totalCount := totalCount - 1;
      }
    }

    /** handle_lpop. */
    method HandleLpop(key: Key, count: Option<nat>) returns (reply: Bytes)
      requires Valid() && CanTake(View(key).Strings(), if count.Some? then count.value else 1)
      modifies this`store, this`strings, this`uncounted, Lists()
      ensures Valid() && fresh(Lists() - old(Lists()))
      ensures View(key) == DoLpop(old(View(key)), count)
      ensures forall k :: k != key ==> View(k) == old(View(k))
      ensures reply == LpopText(LpopTaken(old(View(key)), count))
    {
      hide Valid, View, Bulk, BulkArray, DoLpop, LpopTaken, Filed, CanTake;
      ListView(key);
      LpopOfNone(View(key), count);
      if key !in store || !store[key].ListPack? { return NULL_BULK; }
      var result := PopValues(key, if count.Some? then count.value else 1);
      LpopIs(old(View(key)), count, result);
      if |result| == 0 {
        return NULL_BULK;
      } else if |result| == 1 {
        return Bulk(result[0]);
      } else {
        return BulkArray(result);
      }
    }

    /** handle_blpop on its first key: a reply, or a place in the queue. */
    method HandleBlpop(key: Key, fd: int, deadline: Option<int>) returns (reply: Option<Bytes>)
      requires Valid() && FirstStorable(View(key).Strings())
      modifies this, Lists()
      ensures Valid() && fresh(Lists() - old(Lists()))
      ensures reply == BlpopText(key, BlpopAnswer(old(View(key)))) && View(key) == DoBlpop(old(View(key)), fd, deadline)
      ensures forall k :: k != key ==> View(k) == old(View(k))
    {
      hide Valid, View, Bulk, BulkArray;
      ListView(key);
      if key !in store {
        Enqueue(key, fd, deadline);
        return None;
      }
      if !store[key].ListPack? { return Some(NULL_BULK); }
      var value := PopValue(key);
      if value == None {
        Enqueue(key, fd, deadline);
        return None;
      }
      return Some(BulkArray([key, value.value]));
    }

    method Enqueue(key: Key, fd: int, deadline: Option<int>)
      modifies this`blockedKeys, this`arrived
      ensures View(key) == old(View(key)).(queue := old(View(key)).queue + [Blocked(old(View(key)).arrived, fd, deadline)],
                                           arrived := old(View(key)).arrived + 1)
      ensures forall k :: k != key ==> View(k) == old(View(k))
    {
      var n := if key in arrived then arrived[key] else 0;
      blockedKeys := blockedKeys[key := (if key in blockedKeys then blockedKeys[key] else []) + [Blocked(n, fd, deadline)]];
      arrived := arrived[key := n + 1];
    }

    /** handle_lrange. */
    method HandleLrange(key: Key, start: int, stop: int) returns (reply: Bytes)
      requires Valid() && Fetchable(View(key).Strings(), View(key).counted, start, stop)
      modifies this`strings, this`uncounted, Lists()
      ensures Valid() && reply == BulkArray(Slice(old(View(key)).Strings(), start, stop))
      ensures View(key) == DoLrange(old(View(key))) && forall k :: k != key ==> View(k) == old(View(k))
    {
      hide Filed, Shows, Slice, Fetchable;
      EmptyIsBulkArray();
      SliceOfNone(start, stop);
      ListView(key);
      ArraysSplit(store, key);
      FiledSplit(store, strings, uncounted, key);
      if key !in store || !store[key].ListPack? { return EMPTY_ARRAY; }
      ghost var ws := strings[key];
      ShowsParts(store[key].lp[..], ws, key !in uncounted);
      var result := RangeOf(store[key].lp, start, stop, ws, key !in uncounted);
      Recount(key, ws, |ws| < UINT16_MAX);
      return BulkArray(result);
    }

    /**
     * check_and_expire_blocked_clients: every expired client gets the null array, in the order of its
     * queue, and the others stay in order.
     */
    method ExpireBlocked(now: int) returns (answered: map<Key, seq<(Blocked, Bytes)>>)
      modifies this`blockedKeys
      ensures forall k :: View(k) == DoExpire(old(View(k)), now)
      ensures answered.Keys == old(blockedKeys.Keys)
      ensures forall k :: k in answered ==> answered[k] == TimeoutReplies(Expired(old(blockedKeys[k]), now))
      ensures forall k :: KeepsTheOthers(View(k).queue, old(View(k)).queue, now)
      ensures forall k :: k in answered ==> AnswersTheDue(answered[k], old(blockedKeys[k]), now)
    {
      hide Keep, Expired, TimeoutReplies, KeepsTheOthers, AnswersTheDue;
      ghost var start := blockedKeys;
      var queues;
      queues, answered := ExpireQueues(blockedKeys, now);
      blockedKeys := queues;
      forall k ensures KeepsTheOthers(View(k).queue, old(View(k)).queue, now) { ExpiryIsRight(QueueIn(start, k), now); }
      forall k | k in answered ensures AnswersTheDue(answered[k], start[k], now) { ExpiryIsRight(start[k], now); }
    }
  }

  /** Who goes on waiting: whoever has no deadline, or one that is still to come. */
  ghost predicate KeepsTheOthers(kept: seq<Blocked>, queue: seq<Blocked>, now: int) {
    forall c :: c in kept <==> c in queue && (c.deadline.None? || now < c.deadline.value)
  }

  /** Who is sent the null array: whoever has a deadline that has come. */
  ghost predicate AnswersTheDue(replies: seq<(Blocked, Bytes)>, queue: seq<Blocked>, now: int) {
    forall c, text :: (c, text) in replies <==> c in queue && c.deadline.Some? && c.deadline.value <= now && text == NULL_ARRAY
  }

  lemma ExpiryIsRight(queue: seq<Blocked>, now: int)
    ensures KeepsTheOthers(Keep(queue, now), queue, now) && AnswersTheDue(TimeoutReplies(Expired(queue, now)), queue, now)
  {
    hide Keep, Expired, TimeoutReplies;
    ExpiryMembers(queue, now);
    TimeoutRepliesAre(Expired(queue, now));
  }

  /** create_new_list. */
  method CreateList(value: Bytes, prepend: bool) returns (lp: array<Byte>, len: nat)
    requires Fits(value) && ListSize(Extended([], value, prepend)) <= UINT32_MAX
    ensures fresh(lp) && Shows(lp[..], [value], true) && [value] == Extended([], value, prepend) && len == 1
  {
    hide Fits, ListSize, Contains;
    assert Extended([], value, prepend) == [value];
    lp, len := CreateNewList(value, prepend);
  }

  /** append_to_existing_list. */
  method AppendToList(lp: array<Byte>, value: Bytes, prepend: bool, ghost ws: seq<Bytes>, ghost counted: bool)
    returns (r: array<Byte>, len: nat)
    requires Shows(lp[..], ws, counted) && Fits(value) && ListSize(Extended(ws, value, prepend)) <= UINT32_MAX
    requires prepend ==> FirstStorable(ws)
    modifies lp
    ensures (r == lp || fresh(r)) && Shows(r[..], Extended(ws, value, prepend), counted && |ws| + 1 < UINT16_MAX)
    ensures len == if counted && |ws| + 1 < UINT16_MAX then |ws| + 1 else UINT16_MAX
  {
    hide Shows, Fits, FirstStorable, ListSize, Contains;
    ShowsParts(lp[..], ws, counted);
    r, len := AppendToExistingList(lp, value, prepend, ws);
    ShowsExtended(r[..], ws, value, prepend, counted);
  }

  /** lpFirst, lpGetWithSize and lpDelete. */
  method PopString(lp: array<Byte>, ghost ws: seq<Bytes>, ghost counted: bool) returns (value: Option<Bytes>, r: array<Byte>)
    requires Shows(lp[..], ws, counted) && FirstStorable(ws)
    modifies lp
    ensures (r == lp || fresh(r)) && value == (if ws == [] then None else Some(ws[0]))
    ensures Shows(r[..], if ws == [] then [] else ws[1..], counted)
  {
    hide FirstStorable, Contains;
    ShowsParts(lp[..], ws, counted);
    value, r := PopFirst(lp, ws);
  }

  /** The loop of check_and_expire_blocked_clients over all queues; an emptied queue loses its key. */
  method ExpireQueues(queues: map<Key, seq<Blocked>>, now: int)
    returns (kept: map<Key, seq<Blocked>>, answered: map<Key, seq<(Blocked, Bytes)>>)
    ensures forall k :: QueueIn(kept, k) == Keep(QueueIn(queues, k), now)
    ensures answered.Keys == queues.Keys && forall k :: k in queues ==> answered[k] == TimeoutReplies(Expired(queues[k], now))
  {
    hide Expired, TimeoutReplies;
    kept, answered := queues, map[];
    var keys := queues.Keys;
    while keys != {}
      invariant keys <= queues.Keys && answered.Keys == queues.Keys - keys
      invariant forall k :: k in answered ==> answered[k] == TimeoutReplies(Expired(queues[k], now))
      invariant forall k :: k in keys ==> k in kept && kept[k] == queues[k]
      invariant forall k :: k !in keys ==> QueueIn(kept, k) == Keep(QueueIn(queues, k), now)
      decreases keys
    {
      var key :| key in keys;
      var rest, replies := FilterQueue(kept[key], now);
      kept := if rest == [] then kept - {key} else kept[key := rest];
      answered := answered[key := replies];
      keys := keys - {key};
    }
  }

  /** The queue filter of check_and_expire_blocked_clients. */
  method FilterQueue(queue: seq<Blocked>, now: int) returns (kept: seq<Blocked>, replies: seq<(Blocked, Bytes)>)
    ensures kept == Keep(queue, now) && replies == TimeoutReplies(Expired(queue, now))
    ensures KeepsTheOthers(kept, queue, now) && AnswersTheDue(replies, queue, now)
  {
    hide Keep, Expired, TimeoutReplies, IsExpired, KeepsTheOthers, AnswersTheDue;
    kept, replies := [], [];
    NobodyWaits(now);
    assert queue[0..] == queue;
    for i := 0 to |queue|
      invariant kept + Keep(queue[i..], now) == Keep(queue, now)
      invariant replies + TimeoutReplies(Expired(queue[i..], now)) == TimeoutReplies(Expired(queue, now))
    {
      var c := queue[i];
      assert queue[i..] == [c] + queue[i + 1..];
      OneWaits(c, queue[i + 1..], now);
      if IsExpired(c, now) {
        replies := replies + [(c, NULL_ARRAY)];
      } else {
        kept := kept + [c];
      }
    }
    assert queue[|queue|..] == [];
    ExpiryIsRight(queue, now);
  }

  /** The null array for every one of them, in order, and for nobody else. */
  lemma {:induction false} TimeoutRepliesAre(expired: seq<Blocked>)
    ensures |TimeoutReplies(expired)| == |expired|
    ensures forall i :: 0 <= i < |expired| ==> TimeoutReplies(expired)[i] == (expired[i], NULL_ARRAY)
    ensures forall c, text :: (c, text) in TimeoutReplies(expired) <==> c in expired && text == NULL_ARRAY
  {
    if expired != [] {
      TimeoutRepliesAre(expired[1..]);
      assert expired == [expired[0]] + expired[1..];
    }
  }

  /** A push without a hand-off, by the plain condition. */
  lemma NoHandOff(st: KeyState, values: seq<Bytes>, prepend: bool)
    requires st.queue == [] || values == []
    ensures DoPush(st, values, prepend) == Grown(st, values, prepend)
    ensures PushReply(st, values, prepend) ==
            if values == [] then 0 else if DoPush(st, values, prepend).counted then |DoPush(st, values, prepend).Strings()| else UINT16_MAX
  {}

  /** What a push leaves in the list, and what it hands over: with a client waiting, the first value. */
  lemma PushConservesAll(st: KeyState, values: seq<Bytes>, prepend: bool)
    ensures st.queue != [] && values != [] ==>
              && Delivered(st.queue[0].arrival, values[0]) in PushEvents(st, values)
              && multiset(st.Strings()) + multiset(values) == multiset{values[0]} + multiset(DoPush(st, values, prepend).Strings())
    ensures st.queue == [] || values == [] ==>
              multiset(st.Strings()) + multiset(values) == multiset(DoPush(st, values, prepend).Strings())
  {
    hide Grown, PushAll;
    var st' := DoPush(st, values, prepend);
    if st.queue != [] && values != [] {
      GrownKeepsQueue(st.(queue := st.queue[1..]), values[1..], prepend);
      PushAllMultiset(st.Strings(), values[1..], prepend);
      assert values == [values[0]] + values[1..];
      assert PushEvents(st, values)[1] == Delivered(st.queue[0].arrival, values[0]);
    } else {
      GrownKeepsQueue(st, values, prepend);
      PushAllMultiset(st.Strings(), values, prepend);
    }
  }

  lemma PushAllMultiset(list: seq<Bytes>, values: seq<Bytes>, prepend: bool)
    ensures multiset(PushAll(list, values, prepend)) == multiset(list) + multiset(values)
  {
    forall x ensures multiset(PushAll(list, values, prepend))[x] == (multiset(list) + multiset(values))[x] {
      PushAllCount(list, values, prepend, x);
    }
  }

  /**
   * What LPOP replies: the first value, or with a count the first so many values or as many as there are; these
   * leave the list. A client reads nothing, the value, or the values in order.
   */
  lemma LpopMeans(st: KeyState, count: Option<nat>) returns (n: nat)
    ensures var want, ws := if count.None? then 1 else count.value, st.Strings();
            && n <= |ws| && n <= want && (n == |ws| || n == want)
            && DoLpop(st, count).Strings() == ws[n..]
            && IsRead(LpopText(LpopTaken(st, count)),
                      if n == 0 then NoText else if n == 1 then Text(ws[0]) else Items(Texts(ws[..n])))
  {
    hide IsRead, Bulk, BulkArray;
    n := |LpopTaken(st, count)|;
    NullsAreRead();
    if n == 1 { TextIsRead(st.Strings()[0]); }
    BulkArrayIsRead(st.Strings()[..n]);
  }

  /** What BLPOP replies: key and value at once, nothing on another type; otherwise the client joins the end of the queue. */
  lemma BlpopMeans(key: Key, st: KeyState, fd: int, deadline: Option<int>)
    ensures var text, st' := BlpopText(key, BlpopAnswer(st)), DoBlpop(st, fd, deadline);
            if st.other then text.Some? && IsRead(text.value, NoText) && st' == st
            else if st.Strings() != [] then
              && text.Some? && IsRead(text.value, Items([Text(key), Text(st.Strings()[0])]))
              && st' == st.(list := Some(st.Strings()[1..]))
            else
              text == None && st' == st.(queue := st.queue + [Blocked(st.arrived, fd, deadline)], arrived := st.arrived + 1)
  {
    hide IsRead, BulkArray;
    NullsAreRead();
    if st.Strings() != [] {
      var pair := [key, st.Strings()[0]];
      BulkArrayIsRead(pair);
      assert Texts(pair) == [Text(key), Text(st.Strings()[0])];
    }
  }

  /** What the client that is handed a value reads. */
  lemma HandOffIsRead(key: Key, v: Bytes)
    ensures IsRead(BulkArray([key, v]), Items([Text(key), Text(v)]))
  {
    BulkArrayIsRead([key, v]);
    hide IsRead, BulkArray;
    assert Texts([key, v]) == [Text(key), Text(v)];
  }

  lemma NobodyWaits(now: int)
    ensures Keep([], now) == [] && TimeoutReplies(Expired([], now)) == []
  {}

  lemma OneWaits(c: Blocked, rest: seq<Blocked>, now: int)
    ensures Keep([c] + rest, now) == (if IsExpired(c, now) then [] else [c]) + Keep(rest, now)
    ensures TimeoutReplies(Expired([c] + rest, now)) ==
            (if IsExpired(c, now) then [(c, NULL_ARRAY)] else []) + TimeoutReplies(Expired(rest, now))
  {
    var queue, own := [c] + rest, if IsExpired(c, now) then [c] else [];
    assert queue[0] == c && queue[1..] == rest;
    assert Expired(queue, now) == own + Expired(rest, now);
    assert own + Expired(rest, now) == if own == [] then Expired(rest, now) else [c] + Expired(rest, now);
    if own != [] { assert (own + Expired(rest, now))[1..] == Expired(rest, now); }
  }

  lemma TailIsShort(values: seq<Bytes>, rest: seq<Bytes>)
    requires (forall v :: v in rest ==> v in values) && forall j :: 0 <= j < |values| ==> Fits(values[j])
    ensures forall j :: 0 <= j < |rest| ==> |rest[j]| <= UINT32_MAX
  {
    hide Fits;
    forall j | 0 <= j < |rest| ensures |rest[j]| <= UINT32_MAX {
      assert rest[j] in values;
      FitsIsShort(rest[j]);
    }
  }

  lemma NewFirst(ws: seq<Bytes>, values: seq<Bytes>, i: nat)
    requires i + 1 < |values| && AllStorable(values[..|values| - 1])
    ensures FirstStorable(Extended(ws, values[i], true))
  {
    assert values[..|values| - 1][i] == values[i];
  }

  /** Popping so many values never finds a 64-bit integer at the front. */
  predicate CanTake(ws: seq<Bytes>, count: nat) { AllStorable(ws[..Min(count, |ws|)]) }

  lemma CanTakeNext(ws: seq<Bytes>, count: nat, i: nat)
    requires CanTake(ws, count) && i < count && i <= |ws|
    ensures FirstStorable(ws[i..])
  {
    hide Storable;
    if i < |ws| { assert ws[..Min(count, |ws|)][i] == ws[i]; }
  }

  lemma LpopOfNone(st: KeyState, count: Option<nat>)
    ensures st.list.None? ==> LpopTaken(st, count) == [] && DoLpop(st, count) == st
  {}

  /** As many as were wanted, or all. */
  lemma LpopIs(st: KeyState, count: Option<nat>, taken: seq<Bytes>)
    requires st.list.Some? && |taken| <= |st.list.value| && taken == st.list.value[..|taken|]
    requires |taken| == Min(if count.Some? then count.value else 1, |st.list.value|)
    ensures LpopTaken(st, count) == taken && DoLpop(st, count) == st.(list := Some(st.list.value[|taken|..]))
  {}

  lemma HoldingStrings(st: KeyState, strings: seq<Bytes>)
    ensures Holding(st, strings).Strings() == strings
  {}

  lemma GrownNothing(st: KeyState, values: seq<Bytes>, prepend: bool)
    ensures values == [] ==> Grown(st, values, prepend) == st && PushAll(st.Strings(), values, prepend) == st.Strings()
  {}

  lemma SliceOfNone(start: int, stop: int)
    ensures Slice<Bytes>([], start, stop) == []
  {}
}
