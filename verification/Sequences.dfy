/** What several components need of sequences: index ranges, and that an order determines its listing. */
module Sequences {
  import opened Bytes

  // ----- the index ranges of LRANGE and ZRANGE

  /** A position that is asked for: negative positions count from the end, and both ends are included. */
  predicate Asked(p: int, n: nat, start: int, stop: int) {
    (if start < 0 then n + start else start) <= p <= (if stop < 0 then n + stop else stop)
  }

  /** The first position of a range, after the treatment of negative numbers and of the left end. */
  function First(start: int, n: nat): int {
    var s := if start < 0 then n + start else start; if s < 0 then 0 else s
  }

  /** The last position of a range, after the treatment of negative numbers and of the right end. */
  function Last(stop: int, n: nat): int {
    var e := if stop < 0 then n + stop else stop; if e >= n then n - 1 else e
  }

  function Slice<T>(s: seq<T>, start: int, stop: int): seq<T> {
    var first, last := First(start, |s|), Last(stop, |s|);
    if first <= last then s[first..last + 1] else []
  }

  /** The result is one stretch of the sequence, and it is made of exactly the positions that were asked for. */
  lemma SliceMeans<T>(s: seq<T>, start: int, stop: int) returns (lo: nat)
    ensures var r := Slice(s, start, stop);
            && lo + |r| <= |s| && r == s[lo..lo + |r|]
            && forall p :: 0 <= p < |s| ==> (Asked(p, |s|, start, stop) <==> lo <= p < lo + |r|)
  {
    lo := if Slice(s, start, stop) == [] then 0 else First(start, |s|);
  }

  // ----- orders

  ghost predicate Ascends<T>(less: (T, T) -> bool, s: seq<T>) { forall i, j :: 0 <= i < j < |s| ==> less(s[i], s[j]) }

  ghost predicate Asymmetric<T(!new)>(less: (T, T) -> bool) { forall x, y :: !(less(x, y) && less(y, x)) }

  /** The listing is a function of the set: two ascending sequences of the same elements are equal. */
  lemma {:induction false} OrderIsDetermined<T(!new)>(less: (T, T) -> bool, s: seq<T>, t: seq<T>)
    requires Asymmetric(less) && Ascends(less, s) && Ascends(less, t) && forall x :: x in s <==> x in t
    ensures s == t
  {
    assert (s == [] || s[0] in s) && (t == [] || t[0] in t);
    if s != [] {
      FirstIsLeast(less, s, t);
      TailHas(less, s, t);
      TailHas(less, t, s);
      OrderIsDetermined(less, s[1..], t[1..]);
      assert s == [s[0]] + s[1..] && t == [t[0]] + t[1..];
    }
  }

  lemma FirstIsLeast<T(!new)>(less: (T, T) -> bool, s: seq<T>, t: seq<T>)
    requires Asymmetric(less) && Ascends(less, s) && Ascends(less, t)
    requires s != [] && t != [] && s[0] in t && t[0] in s
    ensures s[0] == t[0]
  {
    var i :| 0 <= i < |t| && t[i] == s[0];
    var j :| 0 <= j < |s| && s[j] == t[0];
    assert i > 0 ==> less(t[0], t[i]);
    assert j > 0 ==> less(s[0], s[j]);
  }

  lemma TailHas<T(!new)>(less: (T, T) -> bool, s: seq<T>, t: seq<T>)
    requires Asymmetric(less) && Ascends(less, s) && s != [] && t != [] && s[0] == t[0] && forall x :: x in s ==> x in t
    ensures forall x :: x in s[1..] ==> x in t[1..]
  {
    forall x | x in s[1..] ensures x in t[1..] {
      var i :| 0 <= i < |s[1..]| && s[1..][i] == x;
      assert s[i + 1] == x && x in s && less(s[0], s[i + 1]);
      var j :| 0 <= j < |t| && t[j] == x;
      assert t[1..][j - 1] == x;
    }
  }

  // ----- one element more

  lemma InsertedAt<T>(s: seq<T>, p: nat, x: T, j: nat)
    requires p <= |s| && j <= |s|
    ensures (s[..p] + [x] + s[p..])[j] == if j < p then s[j] else if j == p then x else s[j - 1]
  {}

  lemma InsertedMembers<T>(s: seq<T>, p: nat, x: T)
    requires p <= |s|
    ensures forall y :: y in s[..p] + [x] + s[p..] <==> y == x || y in s
  {
    assert s == s[..p] + s[p..];
  }

  // ----- parts in order

  /** `t` consists of the elements of `s` at the positions `at`, in their order. */
  ghost predicate Selects<T>(s: seq<T>, at: seq<nat>, t: seq<T>) {
    && |at| == |t| && (forall i, j :: 0 <= i < j < |at| ==> at[i] < at[j])
    && forall i :: 0 <= i < |at| ==> at[i] < |s| && t[i] == s[at[i]]
  }

  lemma NoneSelected<T>()
    ensures Selects<T>([], [], [])
  {}

  lemma SelectedAt<T>(s: seq<T>, at: seq<nat>, t: seq<T>)
    requires Selects(s, at, t)
    ensures |at| == |t| && forall i, j :: 0 <= i < j < |at| ==> at[i] < at[j]
    ensures forall i {:trigger t[i]} :: 0 <= i < |at| ==> at[i] in at && at[i] < |s| && t[i] == s[at[i]]
  {}

  lemma SelectsLess<T>(s: seq<T>, at: seq<nat>, t: seq<T>, x: T)
    requires Selects(s, at, t)
    ensures Selects(s + [x], at, t) && |s| !in at
  {}

  lemma SelectsMore<T>(s: seq<T>, at: seq<nat>, t: seq<T>, x: T)
    requires Selects(s, at, t)
    ensures Selects(s + [x], at + [|s|], t + [x])
  {}

  lemma SelectedMembers<T>(s: seq<T>, at: seq<nat>, t: seq<T>, x: T)
    requires Selects(s, at, t)
    ensures x in t <==> exists p: nat :: p in at && p < |s| && s[p] == x
  {
    if x in t {
      var i :| 0 <= i < |t| && t[i] == x;
      assert at[i] in at;
    }
    if p: nat :| p in at && p < |s| && s[p] == x {
      var i :| 0 <= i < |at| && at[i] == p;
      assert t[i] == x;
    }
  }

  // ----- queues under keys

  /** The queue under a key; a key without one has an empty queue. */
  function QueueIn<T>(m: map<Bytes, seq<T>>, k: Bytes): seq<T> { if k in m then m[k] else [] }
}
