/**
 * The sorted set of src/sortedset.cpp: a map from members to scores, the same pairs in order, and
 * a counter. Scores are real numbers, that is a total order without NaN.
 */
module SortedSets {
  import opened Bytes
  import opened LexOrder
  import opened Sequences

  type Pair = (real, Bytes)

  /** operator< of std::pair<double, std::string>. */
  predicate Below(a: Pair, b: Pair) { a.0 < b.0 || (a.0 == b.0 && Lt(a.1, b.1)) }

  ghost predicate Sorted(s: seq<Pair>) { Ascends(Below, s) }

  lemma BelowIsTotal(a: Pair, b: Pair)
    ensures Below(a, b) || a == b || Below(b, a)
    ensures !(Below(a, b) && Below(b, a)) && !Below(a, a)
  {
    Trichotomy(a.1, b.1);
    Trichotomy(a.1, a.1);
  }

  lemma BelowIsTransitive(a: Pair, b: Pair, c: Pair)
    requires Below(a, b) && Below(b, c)
    ensures Below(a, c)
  {
    if a.0 == b.0 == c.0 { Transitive(a.1, b.1, c.1); }
  }

  // ----- std::set

  /** The position of a pair: behind all smaller ones. */
  function LowerBound(s: seq<Pair>, p: Pair): (i: nat)
    ensures i <= |s|
  {
    if s == [] || !Below(s[0], p) then 0 else 1 + LowerBound(s[1..], p)
  }

  /** find. */
  function IndexOf(s: seq<Pair>, p: Pair): (r: Option<nat>)
    ensures r.Some? ==> r.value < |s| && s[r.value] == p
  {
    var i := LowerBound(s, p); if i < |s| && s[i] == p then Some(i) else None
  }

  /** insert. */
  function SetInsert(s: seq<Pair>, p: Pair): seq<Pair> {
    var i := LowerBound(s, p); if IndexOf(s, p).Some? then s else s[..i] + [p] + s[i..]
  }

  /** erase. */
  function SetErase(s: seq<Pair>, p: Pair): seq<Pair> {
    match IndexOf(s, p) case None => s case Some(i) => s[..i] + s[i + 1..]
  }

  lemma SortedTail(s: seq<Pair>)
    requires Sorted(s) && s != []
    ensures Sorted(s[1..]) && forall i {:trigger s[i]} :: 0 < i < |s| ==> Below(s[0], s[i]) && s[i] == s[1..][i - 1]
  {
    hide Below;
  }

  /** Behind the position come only pairs that are not smaller. */
  lemma {:induction false} LowerBoundCuts(s: seq<Pair>, p: Pair)
    requires Sorted(s)
    ensures forall i :: 0 <= i < LowerBound(s, p) ==> Below(s[i], p)
    ensures forall i :: LowerBound(s, p) <= i < |s| ==> s[i] == p || Below(p, s[i])
  {
    hide Below, Sorted;
    if s != [] {
      SortedTail(s);
      BelowIsTotal(s[0], p);
      if Below(s[0], p) {
        LowerBoundCuts(s[1..], p);
      } else {
        forall i | 0 < i < |s| ensures Below(p, s[i]) {
          if s[0] != p { BelowIsTransitive(p, s[0], s[i]); }
        }
      }
    }
  }

  lemma LowerBoundSplits(s: seq<Pair>, p: Pair)
    requires Sorted(s)
    ensures forall i :: 0 <= i < LowerBound(s, p) ==> Below(s[i], p)
    ensures forall i :: LowerBound(s, p) <= i < |s| ==> s[i] == p || Below(p, s[i])
    ensures p in s <==> IndexOf(s, p).Some?
    ensures IndexOf(s, p).Some? ==> forall i :: LowerBound(s, p) < i < |s| ==> Below(p, s[i])
  {
    hide Below;
    LowerBoundCuts(s, p);
    BelowIsTotal(p, p);
    var k := LowerBound(s, p);
    if p in s {
      var i :| 0 <= i < |s| && s[i] == p;
      BelowIsTotal(s[k], s[i]);
    }
  }

  lemma InsertShape(s: seq<Pair>, p: Pair) returns (i: nat)
    requires Sorted(s) && p !in s
    ensures i <= |s| && SetInsert(s, p) == s[..i] + [p] + s[i..]
    ensures (forall j :: 0 <= j < i ==> Below(s[j], p)) && forall j :: i <= j < |s| ==> Below(p, s[j])
  {
    hide Below;
    LowerBoundSplits(s, p);
    i := LowerBound(s, p);
    assert forall j :: i <= j < |s| ==> s[j] in s;
  }

  /** Inserting keeps the order and adds exactly the pair. */
  lemma InsertKeepsOrder(s: seq<Pair>, p: Pair)
    requires Sorted(s) && p !in s
    ensures Sorted(SetInsert(s, p)) && |SetInsert(s, p)| == |s| + 1
    ensures forall q :: q in SetInsert(s, p) <==> q in s || q == p
  {
    hide Below, SetInsert;
    var i := InsertShape(s, p);
    var t := SetInsert(s, p);
    forall j, k | 0 <= j < k < |t| ensures Below(t[j], t[k]) {
      assert t[j] == if j < i then s[j] else if j == i then p else s[j - 1];
      assert t[k] == if k < i then s[k] else if k == i then p else s[k - 1];
    }
    assert t[i] == p && s == s[..i] + s[i..];
  }

  /** Erasing keeps the order and removes exactly the pair. */
  lemma EraseKeepsOrder(s: seq<Pair>, p: Pair)
    requires Sorted(s) && p in s
    ensures Sorted(SetErase(s, p)) && |SetErase(s, p)| == |s| - 1
    ensures forall q :: q in SetErase(s, p) <==> q in s && q != p
  {
    hide Below;
    LowerBoundSplits(s, p);
    var i, t := LowerBound(s, p), SetErase(s, p);
    assert forall j {:trigger t[j]} :: 0 <= j < |t| ==> t[j] == if j < i then s[j] else s[j + 1];
    BelowIsTotal(p, p);
    assert s == s[..i] + [p] + s[i + 1..];
    forall q ensures q in t <==> q in s && q != p {
      if q in t {
        var j :| 0 <= j < |t| && t[j] == q;
        assert Below(q, p) || Below(p, q);
      }
    }
  }

  ghost function SetOf(s: seq<Pair>): set<Pair> { set p | p in s }

  /** In a sorted sequence a pair stands behind exactly the smaller ones. */
  lemma {:induction false} SmallerOnes(s: seq<Pair>, i: nat)
    requires Sorted(s) && i < |s|
    ensures (set p | p in s && Below(p, s[i])) == SetOf(s[..i])
    ensures |SetOf(s[..i])| == i
  {
    hide Below;
    forall p ensures p in s && Below(p, s[i]) <==> p in s[..i] {
      if p in s && Below(p, s[i]) {
        var j :| 0 <= j < |s| && s[j] == p;
        BelowIsTotal(s[i], s[j]);
        assert j < i;
        assert s[..i][j] == p;
      }
      if p in s[..i] {
        var j :| 0 <= j < i && s[..i][j] == p;
        assert s[j] == p;
      }
    }
    PrefixSize(s, i);
  }

  lemma {:induction false} PrefixSize(s: seq<Pair>, i: nat)
    requires Sorted(s) && i <= |s|
    ensures |SetOf(s[..i])| == i
  {
    hide Below;
    if i == 0 {
      assert SetOf(s[..0]) == {};
    } else {
      PrefixSize(s, i - 1);
      var last := s[i - 1];
      var before := SetOf(s[..i - 1]);
      assert s[..i] == s[..i - 1] + [last];
      assert SetOf(s[..i]) == before + {last};
      BelowIsTotal(last, last);
      forall q | q in before ensures q != last {
        var j :| 0 <= j < i - 1 && s[..i - 1][j] == q;
        assert Below(s[j], s[i - 1]);
      }
      assert last !in before;
    }
  }

  // ----- range

  /** The members of some pairs. */
  function Members(s: seq<Pair>): seq<Bytes> { seq(|s|, i requires 0 <= i < |s| => s[i].1) }

  lemma NoMembers()
    ensures Members([]) == []
  {}

  lemma OneMember(s: seq<Pair>, i: nat, j: nat)
    requires i <= j < |s|
    ensures s[i..i] == [] && Members(s[i..j + 1]) == Members(s[i..j]) + [s[j].1]
  {}

  class SortedSet {
    var hashMap: map<Bytes, real>
    var sets: seq<Pair>
    var length: nat

    /** Both indexes and the counter describe the same map from members to scores. */
    ghost predicate Valid()
      reads this
    {
      && Sorted(sets) && length == |sets| == |hashMap|
      && forall p: Pair :: p in sets <==> p.1 in hashMap && hashMap[p.1] == p.0
    }

    constructor ()
      ensures Valid() && hashMap == map[]
    {
      hashMap, sets, length := map[], [], 0;
    }

    /** insert: whether the member was there before. */
    method Insert(key: Bytes, score: real) returns (alreadyExists: bool)
      requires Valid()
      modifies this
      ensures Valid() && hashMap == old(hashMap)[key := score]
      ensures alreadyExists <==> key in old(hashMap)
      ensures length == old(length) + if alreadyExists then 0 else 1
    {
      hide Below, SetErase, SetInsert;
      alreadyExists := false;
      ghost var before := hashMap;
      if key in hashMap {
        var oldScore := hashMap[key];
        EraseKeepsOrder(sets, (oldScore, key));
        sets := SetErase(sets, (oldScore, key));
        hashMap := hashMap - {key};
        length := length - 1;
        alreadyExists := true;
      }
      InsertKeepsOrder(sets, (score, key));
      hashMap := hashMap[key := score];
      sets := SetInsert(sets, (score, key));
      length := length + 1;
      assert hashMap == before[key := score];
    }

    /** remove: whether the member was there. */
    method Remove(member: Bytes) returns (removed: bool)
      requires Valid()
      modifies this
      ensures Valid() && hashMap == old(hashMap) - {member}
      ensures removed <==> member in old(hashMap)
    {
      hide Below, SetErase;
      if member !in hashMap {
        assert hashMap == hashMap - {member};
        return false;
      }
      var score := hashMap[member];
      EraseKeepsOrder(sets, (score, member));
      hashMap := hashMap - {member};
      sets := SetErase(sets, (score, member));
      length := length - 1;
      return true;
    }

    /** The members below a member, by score and then by name. */
    ghost function Smaller(member: Bytes): set<Bytes>
      reads this
      requires member in hashMap
    { set m | m in hashMap && Below((hashMap[m], m), (hashMap[member], member)) }

    lemma SmallerMeans(member: Bytes)
      ensures member in hashMap ==>
                Smaller(member) == set m | m in hashMap && (hashMap[m] < hashMap[member] || (hashMap[m] == hashMap[member] && Lt(m, member)))
    {}

    /** rank: how many members are smaller. */
    method Rank(member: Bytes) returns (r: Option<nat>)
      requires Valid()
      ensures r.None? <==> member !in hashMap
      ensures r.Some? ==> r.value == |Smaller(member)| && r.value < length && sets[r.value] == (hashMap[member], member)
      ensures r.Some? ==>
                r.value == |set m | m in hashMap && (hashMap[m] < hashMap[member] || (hashMap[m] == hashMap[member] && Lt(m, member)))|
    {
      SmallerMeans(member);
      hide Below;
      if member !in hashMap { return None; }
      var p: Pair := (hashMap[member], member);
      assert p in sets;
      LowerBoundSplits(sets, p);
      var it := IndexOf(sets, p);
      if it == None { return None; }
      SmallerOnes(sets, it.value);
      CountMembers(hashMap, sets, p);
      return it;
    }

    /** A slice of the pairs names members of the set, by rising scores and under one score by name. */
    lemma SliceAscends(start: int, stop: int)
      requires Valid()
      ensures forall i :: 0 <= i < |Members(Slice(sets, start, stop))| ==> Members(Slice(sets, start, stop))[i] in hashMap
      ensures forall i, j :: 0 <= i < j < |Members(Slice(sets, start, stop))| ==>
                var m, n := Members(Slice(sets, start, stop))[i], Members(Slice(sets, start, stop))[j];
                hashMap[m] < hashMap[n] || (hashMap[m] == hashMap[n] && Lt(m, n))
    {
      var cut := Slice(sets, start, stop);
      var k := SliceMeans(sets, start, stop);
      hide Slice, Lt;
      forall i | 0 <= i < |cut| ensures cut[i] in sets && cut[i].1 in hashMap && hashMap[cut[i].1] == cut[i].0 { assert cut[i] == sets[k + i]; }
      forall i, j | 0 <= i < j < |cut| ensures Below(cut[i], cut[j]) { assert cut[i] == sets[k + i] && cut[j] == sets[k + j]; }
    }

    /** size. */
    method Size() returns (n: nat)
      requires Valid()
      ensures n == |hashMap|
    {
      return length;
    }

    /** score. */
    method Score(member: Bytes) returns (r: Option<real>)
      ensures r == if member in hashMap then Some(hashMap[member]) else None
    {
      if member !in hashMap { return None; }
      return Some(hashMap[member]);
    }

    /** range: the members from one position to another, both included, by rising scores and under one score by name. */
    method Range(start: int, stop: int) returns (result: seq<Bytes>)
      requires Valid()
      ensures result == Members(Slice(sets, start, stop))
      ensures forall i :: 0 <= i < |result| ==> result[i] in hashMap
      ensures forall i, j :: 0 <= i < j < |result| ==>
                hashMap[result[i]] < hashMap[result[j]] || (hashMap[result[i]] == hashMap[result[j]] && Lt(result[i], result[j]))
    {
      hide Sorted, Members, Lt;
      NoMembers();
      result := [];
      var size := |sets|;
      if size == 0 { return; }
      var first, last := start, stop;
      if first < 0 { first := size + first; }
      if last < 0 { last := size + last; }
      if first < 0 { first := 0; }
      if last >= size { last := size - 1; }
      if first > last { return; }
      assert sets[first..first] == [];
      var i := first;
      while i <= last && i < |sets|
        invariant first <= i <= last + 1
        invariant result == Members(sets[first..i])
      {
        OneMember(sets, first, i);
        result := result + [sets[i].1];
        i := i + 1;
      }
      SliceAscends(start, stop);
    }
  }

  /** The range from a member's rank to its rank is the member alone. */
  lemma RangeAtRank(s: SortedSet, member: Bytes, rank: nat)
    requires s.Valid() && member in s.hashMap && rank == |s.Smaller(member)|
    ensures Members(Slice(s.sets, rank, rank)) == [member]
  {
    hide Below;
    var p: Pair := (s.hashMap[member], member);
    assert p in s.sets;
    var i :| 0 <= i < |s.sets| && s.sets[i] == p;
    SmallerOnes(s.sets, i);
    CountMembers(s.hashMap, s.sets, p);
  }

  /** Counting pairs below a pair is counting members, as each member has one score. */
  lemma CountMembers(m: map<Bytes, real>, s: seq<Pair>, p: Pair)
    requires forall q: Pair :: q in s <==> q.1 in m && m[q.1] == q.0
    ensures |set q | q in s && Below(q, p)| == |set k | k in m && Below((m[k], k), p)|
  {
    hide Below;
    var pairs := set q | q in s && Below(q, p);
    var members := set k | k in m && Below((m[k], k), p);
    assert members == set q | q in pairs :: q.1;
    SameSize(pairs, members, m);
  }

  lemma {:induction false} SameSize(pairs: set<Pair>, members: set<Bytes>, m: map<Bytes, real>)
    requires members == (set q | q in pairs :: q.1) && forall q :: q in pairs ==> q.1 in m && m[q.1] == q.0
    ensures |pairs| == |members|
    decreases |pairs|
  {
    if pairs == {} {
      assert members == {};
    } else {
      var q :| q in pairs;
      assert q.1 in members;
      SameSize(pairs - {q}, members - {q.1}, m);
    }
  }

  lemma PairsAreOrdered()
    ensures Asymmetric(Below)
  {
    forall a: Pair, b: Pair ensures !(Below(a, b) && Below(b, a)) { BelowIsTotal(a, b); }
  }

  /** The order is a function of the map: two sorted sequences of the same pairs are equal. */
  lemma OrderIsDeterminedByPairs(s: seq<Pair>, t: seq<Pair>)
    requires Sorted(s) && Sorted(t) && forall p :: p in s <==> p in t
    ensures s == t
  {
    PairsAreOrdered();
    OrderIsDetermined(Below, s, t);
  }
}
