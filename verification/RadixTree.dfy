/**
 * The radix tree as a value: what insertion, search and range search compute, and that they
 * agree with a finite map and its sorted list of entries (src/radix-tree.cpp).
 */
module RadixTree {
  import opened Bytes
  import opened LexOrder
  import opened Sequences

  /** A node: its data if isDataPresent, and its children in the order of std::map. */
  datatype Tree = Node(data: Option<Bytes>, kids: seq<Edge>)
  datatype Edge = Edge(path: Bytes, child: Tree)

  const EMPTY_TREE := Node(None, [])

  // ----- the structural invariant

  /** Paths are not empty and siblings start with different bytes, in ascending order. */
  ghost predicate Branches(kids: seq<Edge>) {
    && (forall i :: 0 <= i < |kids| ==> kids[i].path != [])
    && (forall i, j :: 0 <= i < j < |kids| ==> kids[i].path[0] < kids[j].path[0])
  }

  /** Moreover every node below carries data or branches. */
  ghost predicate WellFormed(t: Tree) {
    Branches(t.kids) && forall e :: e in t.kids ==> WellFormed(e.child) && Justified(e.child)
  }

  predicate Justified(t: Tree) { t.data.Some? || |t.kids| >= 2 }

  // ----- search

  /** matchedLength. */
  function MatchedLength(a: Bytes, b: Bytes): (n: nat)
    ensures n <= |a| && n <= |b| && a[..n] == b[..n]
    ensures n < |a| && n < |b| ==> a[n] != b[n]
  {
    if a == [] || b == [] || a[0] != b[0] then 0
    else
      var m := MatchedLength(a[1..], b[1..]);
      assert a[..m + 1] == [a[0]] + a[1..][..m] && b[..m + 1] == [b[0]] + b[1..][..m];
      m + 1
  }

  /** The first child from `i` on whose whole path begins `key`. */
  function Follow(kids: seq<Edge>, key: Bytes, i: nat): (r: Option<nat>)
    ensures r.Some? ==> i <= r.value < |kids| && IsPrefix(kids[r.value].path, key)
    decreases |kids| - i
  {
    if i >= |kids| then None
    else if MatchedLength(key, kids[i].path) == |kids[i].path| then Some(i)
    else Follow(kids, key, i + 1)
  }

  /** What search finds at the end of `key`, None where it returns the empty string for want of a node or data. */
  function Find(t: Tree, key: Bytes): Option<Bytes> {
    if key == [] then t.data
    else
      match Follow(t.kids, key, 0)
      case None => None
      case Some(i) => Find(t.kids[i].child, key[|t.kids[i].path|..])
  }

  // ----- insertion

  /** The child that shares the first byte of `key`, if any. */
  function Sharing(kids: seq<Edge>, key: Bytes, i: nat): (r: Option<nat>)
    requires key != []
    ensures r.Some? ==> i <= r.value < |kids| && kids[r.value].path != [] && kids[r.value].path[0] == key[0]
    ensures r.None? ==> forall j :: i <= j < |kids| ==> kids[j].path == [] || kids[j].path[0] != key[0]
    decreases |kids| - i
  {
    if i >= |kids| then None
    else if kids[i].path != [] && kids[i].path[0] == key[0] then Some(i)
    else Sharing(kids, key, i + 1)
  }

  /** Where std::map puts a new key: after all smaller ones. */
  function Position(kids: seq<Edge>, path: Bytes): (p: nat)
    ensures p <= |kids|
  {
    if kids == [] || !Lt(kids[0].path, path) then 0 else 1 + Position(kids[1..], path)
  }

  function WithEdge(kids: seq<Edge>, e: Edge): seq<Edge> {
    var p := Position(kids, e.path); kids[..p] + [e] + kids[p..]
  }

  function Without(kids: seq<Edge>, i: nat): seq<Edge>
    requires i < |kids|
  { kids[..i] + kids[i + 1..] }

  function Leaf(value: Bytes): Tree { Node(Some(value), []) }

  /** The node put in the place of an edge that `key` leaves after `m` bytes. */
  function Split(e: Edge, key: Bytes, m: nat, value: Bytes): Tree
    requires m <= |e.path| && m <= |key|
  {
    var rest := [Edge(e.path[m..], e.child)];
    if m == |key| then Node(Some(value), rest) else Node(None, WithEdge(rest, Edge(key[m..], Leaf(value))))
  }

  /** insertImpl. */
  function Insert(t: Tree, key: Bytes, value: Bytes): Tree {
    if key == [] then t.(data := Some(value))
    else
      match Sharing(t.kids, key, 0)
      case None => t.(kids := WithEdge(t.kids, Edge(key, Leaf(value))))
      case Some(i) =>
        var e := t.kids[i];
        var m := MatchedLength(key, e.path);
        if m == |e.path| then t.(kids := t.kids[i := Edge(e.path, Insert(e.child, key[m..], value))])
        else t.(kids := WithEdge(Without(t.kids, i), Edge(key[..m], Split(e, key, m, value))))
  }

  // ----- range search

  type Entry = (Bytes, Bytes)

  predicate InRange(k: Bytes, start: Bytes, end: Bytes, exclusive: bool) {
    Le(start, k) && Le(k, end) && !(exclusive && k == start)
  }

  /** rangeSearchImpl on a node reached by `at`. */
  function Range(t: Tree, at: Bytes, start: Bytes, end: Bytes, exclusive: bool): seq<Entry>
    decreases t, 1
  {
    (if t.data.Some? && InRange(at, start, end, exclusive) then [(at, t.data.value)] else [])
    + RangeKids(t.kids, at, start, end, exclusive)
  }

  /** The loop over the children with its two prunings. */
  function RangeKids(kids: seq<Edge>, at: Bytes, start: Bytes, end: Bytes, exclusive: bool): seq<Entry>
    decreases kids, 0
  {
    if kids == [] then []
    else
      var key := at + kids[0].path;
      if Lt(end, key) then []
      else if Le(key, start) && !IsPrefix(key, start) then RangeKids(kids[1..], at, start, end, exclusive)
      else Range(kids[0].child, key, start, end, exclusive) + RangeKids(kids[1..], at, start, end, exclusive)
  }

  /** All entries below a node reached by `at`, in tree order. */
  function Entries(t: Tree, at: Bytes): seq<Entry>
    decreases t, 1
  {
    (if t.data.Some? then [(at, t.data.value)] else []) + EntriesOf(t.kids, at)
  }

  function EntriesOf(kids: seq<Edge>, at: Bytes): seq<Entry>
    decreases kids, 0
  {
    if kids == [] then [] else Entries(kids[0].child, at + kids[0].path) + EntriesOf(kids[1..], at)
  }

  function Select(es: seq<Entry>, start: Bytes, end: Bytes, exclusive: bool): seq<Entry> {
    if es == [] then []
    else (if InRange(es[0].0, start, end, exclusive) then [es[0]] else []) + Select(es[1..], start, end, exclusive)
  }

  // ----- search and insertion agree with a map

  lemma FollowIsSharing(kids: seq<Edge>, key: Bytes, i: nat)
    requires Branches(kids) && key != [] && i < |kids| && kids[i].path[0] == key[0]
    ensures Sharing(kids, key, 0) == Some(i)
    ensures Follow(kids, key, 0) == if IsPrefix(kids[i].path, key) then Some(i) else None
  {
    SharingFrom(kids, key, i, 0);
    FollowFrom(kids, key, i, 0);
  }

  lemma {:induction false} SharingFrom(kids: seq<Edge>, key: Bytes, i: nat, j: nat)
    requires Branches(kids) && key != [] && j <= i < |kids| && kids[i].path[0] == key[0]
    ensures Sharing(kids, key, j) == Some(i)
    decreases i - j
  {
    if j < i { SharingFrom(kids, key, i, j + 1); }
  }

  lemma {:induction false} FollowFrom(kids: seq<Edge>, key: Bytes, i: nat, j: nat)
    requires Branches(kids) && key != [] && j <= i < |kids| && kids[i].path[0] == key[0]
    ensures Follow(kids, key, j) == if IsPrefix(kids[i].path, key) then Some(i) else None
    decreases i - j
  {
    PrefixMatches(kids[j].path, key);
    if j < i { FollowFrom(kids, key, i, j + 1); } else { FollowNothing(kids, key, i + 1); }
  }

  lemma PrefixMatches(path: Bytes, key: Bytes)
    ensures MatchedLength(key, path) == |path| <==> IsPrefix(path, key)
  {
    var n := MatchedLength(key, path);
    if IsPrefix(path, key) { assert forall i :: 0 <= i < |path| ==> key[i] == key[..|path|][i]; }
  }

  lemma {:induction false} FollowNothing(kids: seq<Edge>, key: Bytes, j: nat)
    requires forall i :: j <= i < |kids| ==> kids[i].path != []
    requires key != [] && forall i :: j <= i < |kids| ==> kids[i].path[0] != key[0]
    ensures Follow(kids, key, j) == None
    decreases |kids| - j
  {
    if j < |kids| {
      PrefixMatches(kids[j].path, key);
      FollowNothing(kids, key, j + 1);
    }
  }

  /** Below a child, search goes on with the rest of the key. */
  lemma FindBelow(t: Tree, q: Bytes, i: nat)
    requires Branches(t.kids) && q != [] && i < |t.kids| && t.kids[i].path[0] == q[0]
    ensures Find(t, q) == if IsPrefix(t.kids[i].path, q) then Find(t.kids[i].child, q[|t.kids[i].path|..]) else None
  {
    FollowIsSharing(t.kids, q, i);
  }

  lemma FindNowhere(t: Tree, q: Bytes)
    requires Branches(t.kids) && q != [] && forall i :: 0 <= i < |t.kids| ==> t.kids[i].path[0] != q[0]
    ensures Find(t, q) == None
  {
    FollowNothing(t.kids, q, 0);
  }

  /** Search only depends on the child with the right first byte. */
  lemma FindSameChild(t: Tree, u: Tree, q: Bytes, f: Byte)
    requires Branches(t.kids) && Branches(u.kids) && q != [] && q[0] != f
    requires forall e: Edge :: e.path != [] && e.path[0] != f ==> (e in t.kids <==> e in u.kids)
    ensures Find(t, q) == Find(u, q)
  {
    if i :| 0 <= i < |t.kids| && t.kids[i].path[0] == q[0] {
      assert t.kids[i] in u.kids;
      var j :| 0 <= j < |u.kids| && u.kids[j] == t.kids[i];
      FindBelow(t, q, i);
      FindBelow(u, q, j);
    } else {
      FindNowhere(t, q);
      forall j | 0 <= j < |u.kids| ensures u.kids[j].path[0] != q[0] {
        assert u.kids[j] in u.kids && u.kids[j].path != [];
      }
      FindNowhere(u, q);
    }
  }

  // ----- where std::map puts an edge

  lemma {:induction false} PositionSplits(kids: seq<Edge>, path: Bytes)
    requires Branches(kids) && path != [] && forall i :: 0 <= i < |kids| ==> kids[i].path[0] != path[0]
    ensures forall i :: 0 <= i < Position(kids, path) ==> kids[i].path[0] < path[0]
    ensures forall i :: Position(kids, path) <= i < |kids| ==> path[0] < kids[i].path[0]
  {
    if kids != [] {
      FirstByteDecides(kids[0].path, path);
      PositionSplits(kids[1..], path);
      if Lt(kids[0].path, path) {
        forall i | 0 <= i < Position(kids, path) ensures kids[i].path[0] < path[0] {
          if i > 0 { assert kids[i] == kids[1..][i - 1]; }
        }
        forall i | Position(kids, path) <= i < |kids| ensures path[0] < kids[i].path[0] { assert kids[i] == kids[1..][i - 1]; }
      }
    }
  }

  lemma WithEdgeAt(kids: seq<Edge>, e: Edge, j: nat)
    requires j <= |kids|
    ensures |WithEdge(kids, e)| == |kids| + 1
    ensures WithEdge(kids, e)[j] ==
            var p := Position(kids, e.path); if j < p then kids[j] else if j == p then e else kids[j - 1]
  {
    hide Position;
    InsertedAt(kids, Position(kids, e.path), e, j);
  }

  lemma WithEdgeMembers(kids: seq<Edge>, e: Edge)
    ensures forall x :: x in WithEdge(kids, e) <==> x == e || x in kids
  {
    hide Position;
    InsertedMembers(kids, Position(kids, e.path), e);
  }

  lemma WithEdgeBranches(kids: seq<Edge>, e: Edge)
    requires Branches(kids) && e.path != [] && forall i :: 0 <= i < |kids| ==> kids[i].path[0] != e.path[0]
    ensures Branches(WithEdge(kids, e)) && |WithEdge(kids, e)| == |kids| + 1
    ensures forall x :: x in WithEdge(kids, e) <==> x == e || x in kids
  {
    PositionSplits(kids, e.path);
    WithEdgeMembers(kids, e);
    WithEdgeAt(kids, e, 0);
    var p, w := Position(kids, e.path), WithEdge(kids, e);
    hide WithEdge, Position;
    forall j | 0 <= j < |w| ensures w[j] == if j < p then kids[j] else if j == p then e else kids[j - 1] {
      WithEdgeAt(kids, e, j);
    }
    StillBranches(kids, e, p, w);
  }

  lemma StillBranches(kids: seq<Edge>, e: Edge, p: nat, w: seq<Edge>)
    requires Branches(kids) && e.path != [] && p <= |kids| && |w| == |kids| + 1
    requires forall i :: 0 <= i < p ==> kids[i].path[0] < e.path[0]
    requires forall i :: p <= i < |kids| ==> e.path[0] < kids[i].path[0]
    requires forall j {:trigger w[j]} :: 0 <= j < |w| ==> w[j] == if j < p then kids[j] else if j == p then e else kids[j - 1]
    ensures Branches(w)
  {}

  lemma {:induction false} PositionIs(kids: seq<Edge>, path: Bytes, p: nat)
    requires Branches(kids) && path != [] && p <= |kids|
    requires forall i :: 0 <= i < p ==> kids[i].path[0] < path[0]
    requires forall i :: p <= i < |kids| ==> path[0] < kids[i].path[0]
    ensures Position(kids, path) == p
  {
    if kids != [] {
      FirstByteDecides(kids[0].path, path);
      if p > 0 { PositionIs(kids[1..], path, p - 1); }
    }
  }

  /** Taking an edge out and putting one with the same first byte in again replaces it where it was. */
  lemma ReplaceEdge(kids: seq<Edge>, i: nat, e: Edge)
    requires Branches(kids) && i < |kids| && e.path != [] && e.path[0] == kids[i].path[0]
    ensures WithEdge(Without(kids, i), e) == kids[i := e] && Branches(kids[i := e])
  {
    hide Position, WithEdge, Without, Branches;
    var rest := Without(kids, i);
    WithoutAt(kids, i);
    PositionIs(rest, e.path, i);
    WithEdgeSlices(rest, e);
    assert kids[i := e] == rest[..i] + [e] + rest[i..];
  }

  lemma WithoutAt(kids: seq<Edge>, i: nat)
    requires Branches(kids) && i < |kids|
    ensures Without(kids, i) == kids[..i] + kids[i + 1..] && Branches(Without(kids, i))
    ensures forall j :: 0 <= j < i ==> Without(kids, i)[j].path[0] < kids[i].path[0]
    ensures forall j :: i <= j < |Without(kids, i)| ==> kids[i].path[0] < Without(kids, i)[j].path[0]
    ensures forall e: Edge :: e.path != [] && e.path[0] == kids[i].path[0] ==> Branches(kids[i := e])
  {
    var rest := Without(kids, i);
    assert forall j {:trigger rest[j]} :: 0 <= j < |rest| ==> rest[j] == if j < i then kids[j] else kids[j + 1];
  }

  lemma WithEdgeSlices(kids: seq<Edge>, e: Edge)
    ensures var p := Position(kids, e.path); WithEdge(kids, e) == kids[..p] + [e] + kids[p..]
  {}

  // ----- insertion refines map update

  lemma SplitIsWellFormed(e: Edge, key: Bytes, value: Bytes)
    requires e.path != [] && key != [] && WellFormed(e.child) && Justified(e.child)
    requires MatchedLength(key, e.path) < |e.path|
    ensures var u := Split(e, key, MatchedLength(key, e.path), value); WellFormed(u) && Justified(u)
  {
    var m := MatchedLength(key, e.path);
    var lower := Edge(e.path[m..], e.child);
    assert Branches([lower]);
    if m < |key| {
      var upper := Edge(key[m..], Leaf(value));
      var kids := WithEdge([lower], upper);
      WithEdgeBranches([lower], upper);
      hide WithEdge;
      assert WellFormed(upper.child) && Justified(upper.child);
      assert forall x :: x in kids ==> x == upper || x == lower;
      assert WellFormed(Node(None, kids));
    }
  }

  lemma FindInFork(lower: Edge, leaf: Edge, r: Bytes, u: Tree, rest: Bytes, value: Bytes)
    requires lower.path != [] && leaf == Edge(rest, Leaf(value)) && rest != [] && lower.path[0] != rest[0] && r != []
    requires Branches(u.kids) && forall x :: x in u.kids <==> x == lower || x == leaf
    ensures Find(u, r) == if r == rest then Some(value)
                          else if IsPrefix(lower.path, r) then Find(lower.child, r[|lower.path|..]) else None
  {
    assert lower in u.kids && leaf in u.kids;
    var i :| 0 <= i < |u.kids| && u.kids[i] == lower;
    var j :| 0 <= j < |u.kids| && u.kids[j] == leaf;
    if lower.path[0] == r[0] { FindBelow(u, r, i); }
    else if rest[0] == r[0] { FindBelow(u, r, j); LeafFind(value, rest, r); }
    else {
      forall n | 0 <= n < |u.kids| ensures u.kids[n].path[0] != r[0] { assert u.kids[n] in u.kids; }
      FindNowhere(u, r);
    }
  }

  /** Below a split edge, the new key has the new value and all else is as below the old edge. */
  lemma FindInSplit(e: Edge, key: Bytes, value: Bytes, r: Bytes)
    requires e.path != [] && key != [] && WellFormed(e.child) && Justified(e.child)
    requires MatchedLength(key, e.path) < |e.path|
    ensures var m := MatchedLength(key, e.path);
            Find(Split(e, key, m, value), r) ==
            if r == key[m..] then Some(value)
            else if IsPrefix(e.path[m..], r) then Find(e.child, r[|e.path| - m..]) else None
  {
    var m := MatchedLength(key, e.path);
    var u := Split(e, key, m, value);
    var lower := Edge(e.path[m..], e.child);
    SplitIsWellFormed(e, key, value);
    if r != [] {
      if m == |key| {
        if lower.path[0] == r[0] { FindBelow(u, r, 0); } else { FindNowhere(u, r); }
      } else {
        WithEdgeBranches([lower], Edge(key[m..], Leaf(value)));
        FindInFork(lower, Edge(key[m..], Leaf(value)), r, u, key[m..], value);
      }
    }
  }

  lemma LeafFind(value: Bytes, key: Bytes, r: Bytes)
    requires key != []
    ensures IsPrefix(key, r) ==> Find(Leaf(value), r[|key|..]) == if r == key then Some(value) else None
  {
    if IsPrefix(key, r) {
      assert r == key + r[|key|..];
      if r[|key|..] != [] { FindNowhere(Leaf(value), r[|key|..]); }
    }
  }

  lemma AddedKid(t: Tree, e: Edge)
    requires WellFormed(t) && e.path != [] && (forall i :: 0 <= i < |t.kids| ==> t.kids[i].path[0] != e.path[0])
    requires WellFormed(e.child) && Justified(e.child)
    ensures WellFormed(t.(kids := WithEdge(t.kids, e))) && |WithEdge(t.kids, e)| == |t.kids| + 1
  {
    WithEdgeBranches(t.kids, e);
    hide WithEdge;
  }

  lemma ReplacedKid(t: Tree, i: nat, e: Edge)
    requires WellFormed(t) && i < |t.kids| && t.kids[i].path != [] && e.path != [] && e.path[0] == t.kids[i].path[0]
    requires WellFormed(e.child) && Justified(e.child)
    ensures WellFormed(t.(kids := t.kids[i := e]))
  {
    var kids := t.kids[i := e];
    forall x | x in kids ensures WellFormed(x.child) && Justified(x.child) {
      var j :| 0 <= j < |kids| && kids[j] == x;
      assert j != i ==> x == t.kids[j];
    }
  }

  /** Insertion keeps the invariant. */
  lemma {:induction false} InsertKeepsForm(t: Tree, key: Bytes, value: Bytes)
    requires WellFormed(t)
    ensures WellFormed(Insert(t, key, value)) && Justified(Leaf(value))
    ensures Justified(t) ==> Justified(Insert(t, key, value))
    ensures key == [] ==> Justified(Insert(t, key, value))
  {
    if key != [] {
      KidsAreFormed(t);
      hide WellFormed, WithEdge, Without, Split, MatchedLength;
      match Sharing(t.kids, key, 0)
      case None =>
        LeafIsFormed(value);
        AddedKid(t, Edge(key, Leaf(value)));
      case Some(i) =>
        var e := t.kids[i];
        var m := MatchedLength(key, e.path);
        SharedByte(key, e.path);
        if m == |e.path| {
          InsertKeepsForm(e.child, key[m..], value);
          ReplacedKid(t, i, Edge(e.path, Insert(e.child, key[m..], value)));
        } else {
          SplitIsWellFormed(e, key, value);
          MatchIsPrefix(key, e.path);
          ReplaceEdge(t.kids, i, Edge(key[..m], Split(e, key, m, value)));
          ReplacedKid(t, i, Edge(key[..m], Split(e, key, m, value)));
        }
    }
  }

  lemma KidsAreFormed(t: Tree)
    requires WellFormed(t)
    ensures Branches(t.kids)
    ensures forall i :: 0 <= i < |t.kids| ==> t.kids[i].path != [] && WellFormed(t.kids[i].child) && Justified(t.kids[i].child)
    ensures forall data :: WellFormed(t.(data := data))
  {
    forall i | 0 <= i < |t.kids| ensures WellFormed(t.kids[i].child) && Justified(t.kids[i].child) { assert t.kids[i] in t.kids; }
  }

  lemma LeafIsFormed(value: Bytes)
    ensures WellFormed(Leaf(value)) && Justified(Leaf(value))
  {}

  lemma MatchIsPrefix(a: Bytes, b: Bytes)
    ensures MatchedLength(a, b) <= |a| && MatchedLength(a, b) <= |b|
  {}

  lemma SharedByte(a: Bytes, b: Bytes)
    requires a != [] && b != [] && a[0] == b[0]
    ensures MatchedLength(a, b) > 0
  {}

  /** What insertion does at a node, by the child that shares the first byte of the key. */
  lemma InsertCases(t: Tree, key: Bytes, value: Bytes)
    requires WellFormed(t)
    ensures key == [] ==> Insert(t, key, value) == t.(data := Some(value))
    ensures key != [] ==>
      match Sharing(t.kids, key, 0)
      case None => Insert(t, key, value) == t.(kids := WithEdge(t.kids, Edge(key, Leaf(value))))
      case Some(i) =>
        var e, m := t.kids[i], MatchedLength(key, t.kids[i].path);
        && WellFormed(e.child)
        && (m == |e.path| ==> Insert(t, key, value) == t.(kids := t.kids[i := Edge(e.path, Insert(e.child, key[m..], value))]))
        && (m < |e.path| ==> Insert(t, key, value) == t.(kids := WithEdge(Without(t.kids, i), Edge(key[..m], Split(e, key, m, value)))))
  {
    if key != [] && Sharing(t.kids, key, 0).Some? { assert t.kids[Sharing(t.kids, key, 0).value] in t.kids; }
  }

  lemma FindHere(t: Tree)
    ensures Find(t, []) == t.data
  {}

  lemma FindSameKids(t: Tree, u: Tree, q: Bytes)
    requires t.kids == u.kids && q != []
    ensures Find(t, q) == Find(u, q)
  {}

  /** Search after insertion: the new value for the new key, and every other key as before. */
  lemma {:induction false} FindAfterInsert(t: Tree, key: Bytes, value: Bytes, q: Bytes)
    requires WellFormed(t)
    ensures Find(Insert(t, key, value), q) == if q == key then Some(value) else Find(t, q)
    decreases t, 1
  {
    hide Insert, Find, Sharing, MatchedLength, Split, WithEdge, Without, WellFormed;
    InsertKeepsForm(t, key, value);
    InsertCases(t, key, value);
    var u := Insert(t, key, value);
    FormBranches(t);
    FormBranches(u);
    FindHere(t);
    FindHere(u);
    if key == [] {
      if q != [] { FindSameKids(t, u, q); }
    } else if q != [] {
      match Sharing(t.kids, key, 0)
      case None => FindAfterNewEdge(t, key, value, q);
      case Some(i) => FindAtChild(t, key, value, q, i);
    }
  }

  lemma FormBranches(t: Tree)
    requires WellFormed(t)
    ensures Branches(t.kids) && forall e :: e in t.kids ==> WellFormed(e.child) && Justified(e.child)
  {}

  lemma FindAtChild(t: Tree, key: Bytes, value: Bytes, q: Bytes, i: nat)
    requires WellFormed(t) && key != [] && q != [] && Sharing(t.kids, key, 0) == Some(i) && i < |t.kids|
    ensures Find(Insert(t, key, value), q) == if q == key then Some(value) else Find(t, q)
    decreases t, 0
  {
    hide Insert, Find, Sharing, MatchedLength, Split, WithEdge, Without, WellFormed;
    InsertKeepsForm(t, key, value);
    InsertCases(t, key, value);
    var u, e := Insert(t, key, value), t.kids[i];
    FormBranches(t);
    FormBranches(u);
    assert e in t.kids;
    var m := MatchedLength(key, e.path);
    SharedByte(key, e.path);
    MatchedIsShort(key, e.path);
    PrefixMatches(e.path, key);
    if m < |e.path| { ReplaceEdge(t.kids, i, Edge(key[..m], Split(e, key, m, value))); }
    if q[0] != key[0] {
      FindAfterUpdate(t, i, u.kids[i], u, q);
    } else {
      FindBelow(t, q, i);
      FindBelow(u, q, i);
      if m < |e.path| {
        FindThroughSplit(e, key, value, q);
      } else if IsPrefix(e.path, q) {
        FindAfterInsert(e.child, key[m..], value, q[m..]);
        assert q == e.path + q[m..] && key == e.path + key[m..];
      }
    }
  }

  lemma MatchedIsShort(a: Bytes, b: Bytes)
    ensures MatchedLength(a, b) <= |a| && MatchedLength(a, b) <= |b|
    ensures MatchedLength(a, b) > 0 ==> a != [] && b != [] && a[0] == b[0]
  {}

  lemma FindAfterNewEdge(t: Tree, key: Bytes, value: Bytes, q: Bytes)
    requires Branches(t.kids) && key != [] && q != [] && Sharing(t.kids, key, 0) == None
    ensures Find(t.(kids := WithEdge(t.kids, Edge(key, Leaf(value)))), q) == if q == key then Some(value) else Find(t, q)
  {
    var e := Edge(key, Leaf(value));
    var u := t.(kids := WithEdge(t.kids, e));
    WithEdgeBranches(t.kids, e);
    if q[0] == key[0] {
      FindNowhere(t, q);
      assert e in u.kids;
      var j :| 0 <= j < |u.kids| && u.kids[j] == e;
      FindBelow(u, q, j);
      LeafFind(value, key, q);
    } else {
      FindSameChild(t, u, q, key[0]);
    }
  }

  lemma FindAfterUpdate(t: Tree, i: nat, e: Edge, u: Tree, q: Bytes)
    requires Branches(t.kids) && i < |t.kids| && e.path != [] && e.path[0] == t.kids[i].path[0] && q != [] && q[0] != e.path[0]
    requires u == t.(kids := t.kids[i := e]) && Branches(u.kids)
    ensures Find(t, q) == Find(u, q)
  {
    forall x: Edge | x.path != [] && x.path[0] != e.path[0] ensures x in t.kids <==> x in u.kids {
      if j :| 0 <= j < |t.kids| && t.kids[j] == x { assert u.kids[j] == x; }
      if j :| 0 <= j < |u.kids| && u.kids[j] == x { assert t.kids[j] == x; }
    }
    FindSameChild(t, u, q, e.path[0]);
  }

  lemma FindThroughSplit(e: Edge, key: Bytes, value: Bytes, q: Bytes)
    requires e.path != [] && key != [] && q != [] && WellFormed(e.child) && Justified(e.child)
    requires 0 < MatchedLength(key, e.path) < |e.path|
    ensures var m := MatchedLength(key, e.path);
            (if IsPrefix(key[..m], q) then Find(Split(e, key, m, value), q[m..]) else None) ==
            if q == key then Some(value) else if IsPrefix(e.path, q) then Find(e.child, q[|e.path|..]) else None
  {
    var m := MatchedLength(key, e.path);
    var common := key[..m];
    assert e.path == common + e.path[m..] && key == common + key[m..];
    hide MatchedLength, Split, Find, WellFormed, IsPrefix;
    PrefixInTwoSteps(common, e.path[m..], q);
    PrefixOfItself(common, key[m..]);
    if IsPrefix(common, q) {
      PrefixIsShorter(common, q);
      PrefixAndRest(common, q);
      FindInSplit(e, key, value, q[m..]);
    }
  }

  lemma PrefixIsShorter(a: Bytes, q: Bytes)
    requires IsPrefix(a, q)
    ensures |a| <= |q|
  {}

  lemma PrefixOfItself(a: Bytes, b: Bytes)
    ensures IsPrefix(a, a + b)
  {}

  lemma PrefixAndRest(a: Bytes, q: Bytes)
    requires IsPrefix(a, q)
    ensures q == a + q[|a|..]
  {}

  lemma PrefixInTwoSteps(a: Bytes, b: Bytes, q: Bytes)
    ensures IsPrefix(a + b, q) <==> IsPrefix(a, q) && IsPrefix(b, q[|a|..])
    ensures IsPrefix(a + b, q) ==> q[|a + b|..] == q[|a|..][|b|..]
  {
    if IsPrefix(a + b, q) {
      assert q[..|a|] == q[..|a + b|][..|a|] && q[|a|..][..|b|] == q[..|a + b|][|a|..];
    }
    if IsPrefix(a, q) && IsPrefix(b, q[|a|..]) { assert q[..|a + b|] == q[..|a|] + q[|a|..][..|b|]; }
  }

  // ----- the entries are the map, in order

  lemma {:induction false} SelectConcat(a: seq<Entry>, b: seq<Entry>, start: Bytes, end: Bytes, exclusive: bool)
    ensures Select(a + b, start, end, exclusive) == Select(a, start, end, exclusive) + Select(b, start, end, exclusive)
  {
    hide InRange;
    if a == [] {
      assert a + b == b;
    } else {
      assert (a + b)[1..] == a[1..] + b && (a + b)[0] == a[0];
      SelectConcat(a[1..], b, start, end, exclusive);
      hide Select;
      SelectFirst(a, start, end, exclusive);
      SelectFirst(a + b, start, end, exclusive);
    }
  }

  lemma SelectFirst(es: seq<Entry>, start: Bytes, end: Bytes, exclusive: bool)
    requires es != []
    ensures Select(es, start, end, exclusive) ==
            (if InRange(es[0].0, start, end, exclusive) then [es[0]] else []) + Select(es[1..], start, end, exclusive)
  {}

  lemma {:induction false} SelectNone(es: seq<Entry>, start: Bytes, end: Bytes, exclusive: bool)
    requires forall e :: e in es ==> !InRange(e.0, start, end, exclusive)
    ensures Select(es, start, end, exclusive) == []
  {
    if es != [] {
      assert es[0] in es;
      SelectNone(es[1..], start, end, exclusive);
    }
  }

  /** Every entry below a node continues the key of the node. */
  lemma {:induction false} EntriesContinue(t: Tree, at: Bytes)
    ensures forall e :: e in Entries(t, at) ==> IsPrefix(at, e.0)
    decreases t, 1
  {
    EntriesOfContinue(t.kids, at);
    forall e | e in Entries(t, at) ensures IsPrefix(at, e.0) {
      if e in EntriesOf(t.kids, at) {
        var j :| 0 <= j < |t.kids| && IsPrefix(at + t.kids[j].path, e.0);
        PrefixInTwoSteps(at, t.kids[j].path, e.0);
      }
    }
  }

  lemma {:induction false} EntriesOfContinue(kids: seq<Edge>, at: Bytes)
    ensures forall e :: e in EntriesOf(kids, at) ==> exists j :: 0 <= j < |kids| && IsPrefix(at + kids[j].path, e.0)
    decreases kids, 0
  {
    if kids != [] {
      EntriesContinue(kids[0].child, at + kids[0].path);
      EntriesOfContinue(kids[1..], at);
      forall e | e in EntriesOf(kids, at) ensures exists j :: 0 <= j < |kids| && IsPrefix(at + kids[j].path, e.0) {
        if e in EntriesOf(kids[1..], at) {
          var j :| 0 <= j < |kids[1..]| && IsPrefix(at + kids[1..][j].path, e.0);
          assert kids[j + 1] == kids[1..][j];
        }
      }
    }
  }

  predicate Ascending(es: seq<Entry>) { forall i, j :: 0 <= i < j < |es| ==> Lt(es[i].0, es[j].0) }

  /** Two keys that part at the first byte after a common one are ordered by that byte. */
  lemma PartedKeys(at: Bytes, a: Bytes, b: Bytes, k: Bytes, l: Bytes)
    requires a != [] && b != [] && a[0] < b[0] && IsPrefix(at + a, k) && IsPrefix(at + b, l)
    ensures Lt(k, l)
  {
    PrefixInTwoSteps(at, a, k);
    PrefixInTwoSteps(at, b, l);
    assert k == at + k[|at|..] && l == at + l[|at|..];
    assert k[|at|..][0] == a[0] by { assert k[|at|..][..|a|][0] == a[0]; }
    assert l[|at|..][0] == b[0] by { assert l[|at|..][..|b|][0] == b[0]; }
    CommonPrefix(at, k[|at|..], l[|at|..]);
  }

  /** The tree order is strictly ascending byte order, without duplicates. */
  lemma {:induction false} EntriesAscend(t: Tree, at: Bytes)
    requires WellFormed(t)
    ensures Ascending(Entries(t, at))
    decreases t, 1
  {
    EntriesOfAscend(t.kids, at);
    EntriesOfContinue(t.kids, at);
    var rest := EntriesOf(t.kids, at);
    forall i | 0 <= i < |rest| ensures Lt(at, rest[i].0) {
      assert rest[i] in rest;
      var j :| 0 <= j < |t.kids| && IsPrefix(at + t.kids[j].path, rest[i].0);
      PrefixInTwoSteps(at, t.kids[j].path, rest[i].0);
      assert rest[i].0 == at + rest[i].0[|at|..] && |rest[i].0| > |at|;
      PrefixIsSmaller(at, rest[i].0[|at|..]);
    }
  }

  lemma {:induction false} EntriesOfAscend(kids: seq<Edge>, at: Bytes)
    requires Branches(kids) && forall e :: e in kids ==> WellFormed(e.child)
    ensures Ascending(EntriesOf(kids, at))
    decreases kids, 0
  {
    if kids != [] {
      var key := at + kids[0].path;
      var first, rest := Entries(kids[0].child, key), EntriesOf(kids[1..], at);
      EntriesAscend(kids[0].child, key);
      EntriesOfAscend(kids[1..], at);
      EntriesContinue(kids[0].child, key);
      EntriesOfContinue(kids[1..], at);
      forall i, j | 0 <= i < |first| && 0 <= j < |rest| ensures Lt(first[i].0, rest[j].0) {
        assert first[i] in first && rest[j] in rest;
        var l :| 0 <= l < |kids[1..]| && IsPrefix(at + kids[1..][l].path, rest[j].0);
        assert kids[1..][l] == kids[l + 1];
        PartedKeys(at, kids[0].path, kids[l + 1].path, first[i].0, rest[j].0);
      }
    }
  }

  lemma NextByte(at: Bytes, path: Bytes, k: Bytes)
    ensures path != [] && IsPrefix(at + path, k) ==> |k| > |at| && k[|at|] == path[0]
  {
    if path != [] && IsPrefix(at + path, k) { assert k[..|at + path|][|at|] == path[0]; }
  }

  /** An entry is listed exactly when search finds it. */
  lemma {:induction false} EntriesAreFound(t: Tree, at: Bytes, k: Bytes, v: Bytes)
    requires WellFormed(t)
    ensures (k, v) in Entries(t, at) <==> IsPrefix(at, k) && Find(t, k[|at|..]) == Some(v)
    decreases t, 1
  {
    EntriesContinue(t, at);
    EntriesOfContinue(t.kids, at);
    if IsPrefix(at, k) {
      var q := k[|at|..];
      assert k == at + q;
      if q == [] {
        assert k == at;
        if t.data.Some? { assert Entries(t, at)[0] == (at, t.data.value); }
      } else if i :| 0 <= i < |t.kids| && t.kids[i].path[0] == q[0] {
        FindBelow(t, q, i);
        EntriesOfAreFound(t.kids, at, k, v, i);
      } else {
        FindNowhere(t, q);
        if (k, v) in EntriesOf(t.kids, at) {
          var j :| 0 <= j < |t.kids| && IsPrefix(at + t.kids[j].path, k);
          NextByte(at, t.kids[j].path, k);
        }
      }
    }
  }

  lemma {:induction false} EntriesOfAreFound(kids: seq<Edge>, at: Bytes, k: Bytes, v: Bytes, i: nat)
    requires Branches(kids) && (forall e :: e in kids ==> WellFormed(e.child)) && i < |kids|
    requires IsPrefix(at, k) && |k| > |at| && kids[i].path[0] == k[|at|]
    ensures (k, v) in EntriesOf(kids, at) <==>
            IsPrefix(kids[i].path, k[|at|..]) && Find(kids[i].child, k[|at|..][|kids[i].path|..]) == Some(v)
    decreases kids, 0
  {
    hide Find, Entries, WellFormed;
    var key := at + kids[0].path;
    EntriesAreFound(kids[0].child, key, k, v);
    PrefixInTwoSteps(at, kids[0].path, k);
    if i == 0 {
      EntriesOfContinue(kids[1..], at);
      if (k, v) in EntriesOf(kids[1..], at) {
        var j :| 0 <= j < |kids[1..]| && IsPrefix(at + kids[1..][j].path, k);
        NextByte(at, kids[j + 1].path, k);
      }
    } else {
      EntriesOfAreFound(kids[1..], at, k, v, i - 1);
      NextByte(at, kids[0].path, k);
    }
  }

  // ----- range search with its prunings is the sorted filter

  lemma {:induction false} RangeIsSelect(t: Tree, at: Bytes, start: Bytes, end: Bytes, exclusive: bool)
    requires WellFormed(t)
    ensures Range(t, at, start, end, exclusive) == Select(Entries(t, at), start, end, exclusive)
    decreases t, 1
  {
    RangeKidsIsSelect(t.kids, at, start, end, exclusive);
    var own: seq<Entry> := if t.data.Some? then [(at, t.data.value)] else [];
    SelectConcat(own, EntriesOf(t.kids, at), start, end, exclusive);
  }

  lemma {:induction false} RangeKidsIsSelect(kids: seq<Edge>, at: Bytes, start: Bytes, end: Bytes, exclusive: bool)
    requires Branches(kids) && forall e :: e in kids ==> WellFormed(e.child)
    ensures RangeKids(kids, at, start, end, exclusive) == Select(EntriesOf(kids, at), start, end, exclusive)
    decreases kids, 0
  {
    if kids != [] {
      var key := at + kids[0].path;
      var first := Entries(kids[0].child, key);
      SelectConcat(first, EntriesOf(kids[1..], at), start, end, exclusive);
      if Lt(end, key) {
        NothingPastEnd(kids, at, start, end, exclusive);
      } else {
        RangeKidsIsSelect(kids[1..], at, start, end, exclusive);
        if Le(key, start) && !IsPrefix(key, start) {
          NothingBeforeStart(kids[0].child, key, start, end, exclusive);
        } else {
          RangeIsSelect(kids[0].child, key, start, end, exclusive);
        }
      }
    }
  }

  /** The early return loses nothing: everything from this child on lies past the end key. */
  lemma NothingPastEnd(kids: seq<Edge>, at: Bytes, start: Bytes, end: Bytes, exclusive: bool)
    requires Branches(kids) && kids != [] && Lt(end, at + kids[0].path)
    ensures Select(EntriesOf(kids, at), start, end, exclusive) == []
  {
    var es := EntriesOf(kids, at);
    EntriesOfContinue(kids, at);
    forall e | e in es ensures !InRange(e.0, start, end, exclusive) {
      var j :| 0 <= j < |kids| && IsPrefix(at + kids[j].path, e.0);
      if j > 0 {
        assert at + kids[0].path + [] == at + kids[0].path && IsPrefix(at + kids[0].path, at + kids[0].path);
        PartedKeys(at, kids[0].path, kids[j].path, at + kids[0].path, e.0);
      } else {
        assert e.0 == at + kids[0].path + e.0[|at + kids[0].path|..];
        PrefixIsSmaller(at + kids[0].path, e.0[|at + kids[0].path|..]);
      }
      assert Le(at + kids[0].path, e.0);
      PastEnd(end, at + kids[0].path, e.0);
    }
    SelectNone(es, start, end, exclusive);
  }

  lemma PastEnd(end: Bytes, key: Bytes, k: Bytes)
    requires Lt(end, key) && Le(key, k)
    ensures !Le(k, end)
  {
    if key != k { Transitive(end, key, k); }
    Trichotomy(end, k);
  }

  /** Skipping a child that is below the start key without being a prefix of it loses nothing. */
  lemma NothingBeforeStart(t: Tree, key: Bytes, start: Bytes, end: Bytes, exclusive: bool)
    requires Le(key, start) && !IsPrefix(key, start)
    ensures Select(Entries(t, key), start, end, exclusive) == []
  {
    EntriesContinue(t, key);
    forall e | e in Entries(t, key) ensures !InRange(e.0, start, end, exclusive) {
      assert e.0 == key + e.0[|key|..];
      assert start[..|start|] == start;
      Diverged(key, start, e.0[|key|..]);
      Trichotomy(e.0, start);
    }
    SelectNone(Entries(t, key), start, end, exclusive);
  }

  // ----- trees built by insertion

  /** The tree after some insertions, the last one last. */
  function Build(pairs: seq<Entry>): Tree {
    if pairs == [] then EMPTY_TREE else Insert(Build(pairs[..|pairs| - 1]), pairs[|pairs| - 1].0, pairs[|pairs| - 1].1)
  }

  /** The value given last for a key. */
  function LastFor(pairs: seq<Entry>, k: Bytes): Option<Bytes> {
    if pairs == [] then None
    else if pairs[|pairs| - 1].0 == k then Some(pairs[|pairs| - 1].1)
    else LastFor(pairs[..|pairs| - 1], k)
  }

  lemma {:induction false} LastGiven(pairs: seq<Entry>, e: Entry)
    ensures LastFor(pairs, e.0) == Some(e.1) <==>
            exists i :: 0 <= i < |pairs| && pairs[i] == e && forall j :: i < j < |pairs| ==> pairs[j].0 != e.0
  {
    if pairs != [] {
      var n := |pairs| - 1;
      var front := pairs[..n];
      LastGiven(front, e);
      if pairs[n].0 == e.0 {
        assert pairs[n].1 == e.1 ==> pairs[n] == e;
      } else if i :| 0 <= i < |front| && front[i] == e && forall j :: i < j < |front| ==> front[j].0 != e.0 {
        assert pairs[i] == e && forall j :: i < j < n ==> pairs[j] == front[j];
      }
      if i :| 0 <= i < |pairs| && pairs[i] == e && forall j :: i < j < |pairs| ==> pairs[j].0 != e.0 {
        if i < n { assert front[i] == e && forall j :: i < j < n ==> front[j] == pairs[j]; }
      }
    }
  }

  /** For all insertion orders, search finds the value given last for a key, and the invariant holds. */
  lemma {:induction false} BuiltTreeIsMap(pairs: seq<Entry>, k: Bytes)
    ensures WellFormed(Build(pairs)) && Find(Build(pairs), k) == LastFor(pairs, k)
  {
    hide Insert, Find;
    if pairs == [] {
      EmptyFindsNothing(k);
    } else {
      var front, last := pairs[..|pairs| - 1], pairs[|pairs| - 1];
      BuiltTreeIsMap(front, k);
      InsertKeepsForm(Build(front), last.0, last.1);
      FindAfterInsert(Build(front), last.0, last.1, k);
    }
  }

  lemma EmptyFindsNothing(k: Bytes)
    ensures Find(EMPTY_TREE, k) == None
  {}

  lemma {:induction false} SelectMembers(es: seq<Entry>, start: Bytes, end: Bytes, exclusive: bool, e: Entry)
    ensures e in Select(es, start, end, exclusive) <==> e in es && InRange(e.0, start, end, exclusive)
  {
    hide InRange;
    if es != [] { SelectMembers(es[1..], start, end, exclusive, e); }
  }

  lemma {:induction false} SelectAscends(es: seq<Entry>, start: Bytes, end: Bytes, exclusive: bool)
    requires Ascending(es)
    ensures Ascending(Select(es, start, end, exclusive))
  {
    hide InRange, Lt;
    if es != [] {
      var rest := Select(es[1..], start, end, exclusive);
      assert forall i :: 0 <= i < |es[1..]| ==> es[1..][i] == es[i + 1];
      SelectAscends(es[1..], start, end, exclusive);
      forall j | 0 <= j < |rest| ensures Lt(es[0].0, rest[j].0) {
        SelectMembers(es[1..], start, end, exclusive, rest[j]);
        assert rest[j] in rest;
        var i :| 0 <= i < |es[1..]| && es[1..][i] == rest[j];
      }
    }
  }

  /**
   * For all insertion orders, range search yields exactly the keys in the range with their last
   * values, in strictly ascending byte order.
   */
  lemma RangeOfBuiltTree(pairs: seq<Entry>, start: Bytes, end: Bytes, exclusive: bool)
    ensures forall i, j :: 0 <= i < j < |Range(Build(pairs), [], start, end, exclusive)| ==>
              Lt(Range(Build(pairs), [], start, end, exclusive)[i].0, Range(Build(pairs), [], start, end, exclusive)[j].0)
    ensures forall e :: e in Range(Build(pairs), [], start, end, exclusive) <==>
              && (exists i :: 0 <= i < |pairs| && pairs[i] == e && forall j :: i < j < |pairs| ==> pairs[j].0 != e.0)
              && !Lt(e.0, start) && !Lt(end, e.0) && (exclusive ==> e.0 != start)
  {
    hide Build, Entries, Range, Select, InRange, Find, LastFor;
    var t := Build(pairs);
    BuiltTreeIsMap(pairs, []);
    EntriesAscend(t, []);
    RangeIsSelect(t, [], start, end, exclusive);
    SelectAscends(Entries(t, []), start, end, exclusive);
    forall e: Entry
      ensures e in Range(t, [], start, end, exclusive) <==>
                && (exists i :: 0 <= i < |pairs| && pairs[i] == e && forall j :: i < j < |pairs| ==> pairs[j].0 != e.0)
                && !Lt(e.0, start) && !Lt(end, e.0) && (exclusive ==> e.0 != start)
    {
      SelectMembers(Entries(t, []), start, end, exclusive, e);
      EntriesAreFound(t, [], e.0, e.1);
      BuiltTreeIsMap(pairs, e.0);
      assert e == (e.0, e.1) && e.0[0..] == e.0 && IsPrefix([], e.0);
      LastGiven(pairs, e);
      InRangeMeans(e.0, start, end, exclusive);
    }
  }

  lemma InRangeMeans(k: Bytes, start: Bytes, end: Bytes, exclusive: bool)
    ensures InRange(k, start, end, exclusive) <==> !Lt(k, start) && !Lt(end, k) && (exclusive ==> k != start)
  {
    Trichotomy(start, k);
    Trichotomy(k, end);
  }
}
