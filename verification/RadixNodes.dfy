/**
 * The radix tree in memory (src/radix-tree.h, src/radix-tree.cpp): nodes own their
 * children and insertion edits them in place. `tree` is the value of RadixTree that a node stands for.
 */
module RadixNodes {
  import opened Bytes
  import opened LexOrder
  import opened RadixTree
  import opened Sequences

  /** An entry of the std::map of children; the sequence is kept in key order. */
  datatype Child = Child(key: Bytes, node: RadixTreeNode)

  /** emplace of std::map for a key that is not present: behind all smaller keys. */
  method Emplace(children: seq<Child>, c: Child, ghost kids: seq<Edge>, ghost e: Edge) returns (w: seq<Child>, p: nat)
    requires |children| == |kids| && forall i :: 0 <= i < |kids| ==> kids[i].path == children[i].key
    requires e.path == c.key
    ensures p <= |kids| && |w| == |WithEdge(kids, e)| == |kids| + 1
    ensures forall j {:trigger w[j]} :: 0 <= j < |w| ==> w[j] == if j < p then children[j] else if j == p then c else children[j - 1]
    ensures forall j {:trigger WithEdge(kids, e)[j]} :: 0 <= j < |w| ==>
              WithEdge(kids, e)[j] == if j < p then kids[j] else if j == p then e else kids[j - 1]
  {
    p := 0;
    while p < |children| && Lt(children[p].key, c.key)
      invariant p <= |kids| && Position(kids, c.key) == p + Position(kids[p..], c.key)
    {
      assert kids[p..][0] == kids[p] && kids[p..][1..] == kids[p + 1..];
      p := p + 1;
    }
    w := children[..p] + [c] + children[p..];
    assert kids[p..] == [] || !Lt(kids[p..][0].path, c.key);
    EmplacedAt(children, p, c, w);
    WithEdgeIs(kids, e, p);
  }

  lemma EmplacedAt(children: seq<Child>, p: nat, c: Child, w: seq<Child>)
    requires p <= |children| && w == children[..p] + [c] + children[p..]
    ensures |w| == |children| + 1
    ensures forall j {:trigger w[j]} :: 0 <= j < |w| ==> w[j] == if j < p then children[j] else if j == p then c else children[j - 1]
  {
    forall j | 0 <= j < |w| ensures w[j] == if j < p then children[j] else if j == p then c else children[j - 1] {
      InsertedAt(children, p, c, j);
    }
  }

  lemma WithEdgeIs(kids: seq<Edge>, e: Edge, p: nat)
    requires p == Position(kids, e.path)
    ensures p <= |kids| && |WithEdge(kids, e)| == |kids| + 1
    ensures forall j {:trigger WithEdge(kids, e)[j]} :: 0 <= j <= |kids| ==>
              WithEdge(kids, e)[j] == if j < p then kids[j] else if j == p then e else kids[j - 1]
  {
    WithEdgeAt(kids, e, 0);
    hide WithEdge;
    forall j | 0 <= j <= |kids| ensures WithEdge(kids, e)[j] == if j < p then kids[j] else if j == p then e else kids[j - 1] {
      WithEdgeAt(kids, e, j);
    }
  }

  /** erase of an entry. */
  function Erased(children: seq<Child>, i: nat): (w: seq<Child>)
    requires i < |children|
    ensures |w| == |children| - 1
    ensures forall j {:trigger w[j]} :: 0 <= j < |w| ==> w[j] == children[if j < i then j else j + 1]
  { children[..i] + children[i + 1..] }

  lemma WithoutIndices(kids: seq<Edge>, i: nat)
    requires i < |kids|
    ensures |Without(kids, i)| == |kids| - 1
    ensures forall j {:trigger Without(kids, i)[j]} :: 0 <= j < |kids| - 1 ==> Without(kids, i)[j] == kids[if j < i then j else j + 1]
  {}

  lemma SingleEdge(e: Edge)
    ensures WithEdge([], e) == [e]
  {}

  /** matchedLength. */
  method MatchLength(newKey: Bytes, existing: Bytes) returns (i: nat)
    ensures i == MatchedLength(newKey, existing)
  {
    var n := if |newKey| < |existing| then |newKey| else |existing|;
    i := 0;
    while i < n
      invariant i <= n && MatchedLength(newKey, existing) == i + MatchedLength(newKey[i..], existing[i..])
    {
      if newKey[i] != existing[i] { break; }
      assert newKey[i..][1..] == newKey[i + 1..] && existing[i..][1..] == existing[i + 1..];
      i := i + 1;
    }
  }

  lemma RangeOfNode(t: Tree, at: Bytes, start: Bytes, end: Bytes, exclusive: bool)
    ensures Range(t, at, start, end, exclusive) ==
            (if t.data.Some? && InRange(at, start, end, exclusive) then [(at, t.data.value)] else [])
            + RangeKids(t.kids, at, start, end, exclusive)
  {}

  lemma RangeOfKids(kids: seq<Edge>, i: nat, at: Bytes, start: Bytes, end: Bytes, exclusive: bool)
    requires i < |kids|
    ensures var key, rest := at + kids[i].path, RangeKids(kids[i + 1..], at, start, end, exclusive);
            RangeKids(kids[i..], at, start, end, exclusive) ==
            if Lt(end, key) then []
            else if Le(key, start) && !IsPrefix(key, start) then rest
            else Range(kids[i].child, key, start, end, exclusive) + rest
  {
    assert kids[i..][0] == kids[i] && kids[i..][1..] == kids[i + 1..];
  }

  lemma RangeOfNoKids(kids: seq<Edge>, at: Bytes, start: Bytes, end: Bytes, exclusive: bool)
    requires kids == []
    ensures RangeKids(kids, at, start, end, exclusive) == []
  {}

  lemma Joined(a: seq<Entry>, b: seq<Entry>, c: seq<Entry>)
    ensures a + b + c == a + (b + c)
  {}

  class RadixTreeNode {
    var data: Bytes
    var isDataPresent: bool
    var children: seq<Child>
    ghost var tree: Tree
    ghost var repr: set<RadixTreeNode>

    ghost predicate Valid()
      reads this, repr
      decreases repr, 1
      ensures Valid() ==> this in repr && |tree.kids| == |children|
      ensures Valid() ==> forall i :: 0 <= i < |children| ==> tree.kids[i].path == children[i].key
    { Owns() }

    /** The node owns its children, and its value is made of theirs. */
    ghost predicate Owns()
      reads this, repr
      decreases repr, 0
    {
      && this in repr
      && (forall i :: 0 <= i < |children| ==>
            && children[i].node in repr && children[i].node.repr <= repr && this !in children[i].node.repr
            && children[i].node.Valid())
      && (forall i, j :: 0 <= i < j < |children| ==> children[i].node.repr !! children[j].node.repr)
      && tree.data == (if isDataPresent then Some(data) else None)
      && |tree.kids| == |children|
      && (forall i :: 0 <= i < |children| ==> tree.kids[i] == Edge(children[i].key, children[i].node.tree))
    }

    lemma Unfolded()
      requires Valid()
      ensures Owns()
    {}

    lemma Folded()
      requires Owns()
      ensures Valid()
    {}

    constructor ()
      ensures Valid() && repr == {this} && tree == EMPTY_TREE
    {
      data, isDataPresent, children := [], false, [];
      tree, repr := EMPTY_TREE, {this};
    }

    constructor Leaf(value: Bytes)
      ensures Valid() && repr == {this} && tree == RadixTree.Leaf(value)
    {
      data, isDataPresent, children := value, true, [];
      tree, repr := RadixTree.Leaf(value), {this};
    }

    /** The longest match loop of insertImpl, with its early exit; -1 stands for children.end(). */
    method BestMatch(key: Bytes) returns (best: nat, it: int)
      requires Valid() && Branches(tree.kids) && key != []
      ensures -1 <= it < |children|
      ensures Sharing(tree.kids, key, 0) == if it == -1 then None else Some(it)
      ensures if it == -1 then best == 0 else best == MatchedLength(key, children[it].key) > 0
    {
      best, it := 0, -1;
      var i := 0;
      while i < |children|
        invariant 0 <= i <= |children| && -1 <= it < i
        invariant forall j :: 0 <= j < i && j != it ==> tree.kids[j].path[0] != key[0]
        invariant if it == -1 then best == 0 else best == MatchedLength(key, children[it].key) > 0
      {
        assert tree.kids[i].path == children[i].key;
        var length := MatchLength(key, children[i].key);
        if length > best {
          best, it := length, i;
          if best == |key| { break; }
        }
        i := i + 1;
      }
      if it != -1 {
        assert tree.kids[it].path == children[it].key;
        FollowIsSharing(tree.kids, key, it);
      }
    }

    /** emplace into the children: the node becomes the owner of `c`. */
    method Attach(c: Child)
      requires Valid() && c.node.Valid() && c.node.repr !! repr
      modifies this
      ensures Valid() && repr == old(repr) + c.node.repr
      ensures isDataPresent == old(isDataPresent) && data == old(data)
      ensures tree == old(tree).(kids := WithEdge(old(tree).kids, Edge(c.key, c.node.tree)))
    {
      hide WithEdge;
      ghost var e := Edge(c.key, c.node.tree);
      var w, p := Emplace(children, c, tree.kids, e);
      children := w;
      tree := tree.(kids := WithEdge(tree.kids, e));
      repr := repr + c.node.repr;
    }

    /** erase from the children after the node has been moved out. */
    method Detach(i: nat) returns (c: Child)
      requires Valid() && i < |children|
      modifies this
      ensures Valid() && c == old(children)[i] && c.node.Valid() && c.node.repr !! repr
      ensures repr + c.node.repr == old(repr)
      ensures old(tree).kids[i] == Edge(c.key, c.node.tree)
      ensures tree == old(tree).(kids := Without(old(tree).kids, i))
    {
      Unfolded();
      hide Without, Valid;
      WithoutIndices(tree.kids, i);
      ghost var was := children;
      c := children[i];
      children := Erased(children, i);
      tree := tree.(kids := Without(tree.kids, i));
      repr := repr - c.node.repr;
      forall j {:trigger children[j]} | 0 <= j < |children|
        ensures children[j].node in repr && children[j].node.repr <= repr && this !in children[j].node.repr && children[j].node.Valid()
        ensures tree.kids[j] == Edge(children[j].key, children[j].node.tree)
      {
        var k := if j < i then j else j + 1;
        assert children[j] == was[k] && was[k].node.repr !! was[i].node.repr;
      }
      Folded();
    }

    /** insertImpl without a matching child: children[key] becomes a new leaf. */
    method AddLeaf(key: Bytes, value: Bytes)
      requires Valid()
      modifies this
      ensures Valid() && fresh(repr - old(repr))
      ensures isDataPresent == old(isDataPresent) && data == old(data)
      ensures tree == old(tree).(kids := WithEdge(old(tree).kids, Edge(key, RadixTree.Leaf(value))))
    {
      var leaf := new RadixTreeNode.Leaf(value);
      Attach(Child(key, leaf));
    }

    /** The node that takes the place of a split edge: above it the old child, and the new value here or below. */
    static method Fork(oldChild: Child, m: nat, key: Bytes, value: Bytes) returns (split: RadixTreeNode)
      requires oldChild.node.Valid() && m <= |key| && m <= |oldChild.key|
      ensures split.Valid() && fresh(split.repr - oldChild.node.repr)
      ensures split.tree == Split(Edge(oldChild.key, oldChild.node.tree), key, m, value)
    {
      hide WithEdge;
      ghost var e := Edge(oldChild.key, oldChild.node.tree);
      SingleEdge(Edge(e.path[m..], e.child));
      split := new RadixTreeNode();
      split.Attach(Child(oldChild.key[m..], oldChild.node));
      if m == |key| {
        split.SetData(value);
      } else {
        split.AddLeaf(key[m..], value);
      }
    }

    /** The value of the node itself. */
    method SetData(value: Bytes)
      requires Valid()
      modifies this
      ensures Valid() && repr == old(repr) && tree == old(tree).(data := Some(value))
    {
      data, isDataPresent := value, true;
      tree := tree.(data := Some(value));
    }

    /** insertImpl's edge split after `m` bytes of child `i`. */
    method SplitChild(i: nat, m: nat, key: Bytes, value: Bytes)
      requires Valid() && i < |children| && m <= |key| && m <= |children[i].key|
      modifies this
      ensures Valid() && fresh(repr - old(repr))
      ensures tree == old(tree).(kids := WithEdge(Without(old(tree).kids, i),
                                                  Edge(key[..m], Split(old(tree).kids[i], key, m, value))))
    {
      hide WithEdge, Without, Split;
      var oldChild := Detach(i);
      var split := Fork(oldChild, m, key, value);
      Attach(Child(key[..m], split));
    }

    /** insertImpl. */
    method InsertImpl(key: Bytes, value: Bytes)
      requires Valid() && WellFormed(tree)
      modifies repr
      ensures Valid() && fresh(repr - old(repr))
      ensures tree == Insert(old(tree), key, value) && WellFormed(tree)
      decreases |key|, 1
    {
      hide Insert, Sharing, MatchedLength, WithEdge, Without, Split;
      InsertKeepsForm(tree, key, value);
      InsertCases(tree, key, value);
      if key == [] {
        SetData(value);
        return;
      }
      var best, it := BestMatch(key);
      if best == 0 || it == -1 {
        AddLeaf(key, value);
        return;
      }
      assert tree.kids[it] == Edge(children[it].key, children[it].node.tree) && tree.kids[it] in tree.kids;
      if best == |children[it].key| {
        InsertBelow(it, best, key, value);
        return;
      }
      SplitChild(it, best, key, value);
    }

    /** insertImpl's recursion: the whole label of child `i`, `m` bytes, has been matched. */
    method InsertBelow(i: nat, m: nat, key: Bytes, value: Bytes)
      requires Valid() && i < |children| && WellFormed(tree.kids[i].child) && 0 < m <= |key|
      modifies repr
      ensures Valid() && fresh(repr - old(repr))
      ensures tree == old(tree).(kids := old(tree).kids[i := Edge(old(tree).kids[i].path,
                                                                 Insert(old(tree).kids[i].child, key[m..], value))])
      decreases |key|, 0
    {
      hide Insert, WellFormed;
      var child := children[i].node;
      assert tree.kids[i] == Edge(children[i].key, child.tree);
      child.InsertImpl(key[m..], value);
      assert forall j :: 0 <= j < |children| && j != i ==> children[j].node.Valid() && children[j].node.repr !! child.repr;
      tree := tree.(kids := tree.kids[i := Edge(children[i].key, child.tree)]);
      repr := repr + child.repr;
    }

    /** rangeSearchImpl; `result` is the vector that it extends. */
    method RangeSearchImpl(startKey: Bytes, endKey: Bytes, currentKey: Bytes, isExclusive: bool, result: seq<Entry>)
      returns (r: seq<Entry>)
      requires Valid()
      ensures r == result + Range(tree, currentKey, startKey, endKey, isExclusive)
      decreases repr
    {
      hide Lt, Le, IsPrefix, InRange, Range, RangeKids;
      RangeOfNode(tree, currentKey, startKey, endKey, isExclusive);
      r := result;
      if isDataPresent && InRange(currentKey, startKey, endKey, isExclusive) { r := r + [(currentKey, data)]; }
      ghost var own := r;
      ghost var goal := own + RangeKids(tree.kids, currentKey, startKey, endKey, isExclusive);
      assert tree.kids[0..] == tree.kids;
      assert result + Range(tree, currentKey, startKey, endKey, isExclusive) == goal;
      var i := 0;
      while i < |children|
        invariant 0 <= i <= |children|
        invariant goal == r + RangeKids(tree.kids[i..], currentKey, startKey, endKey, isExclusive)
      {
        assert tree.kids[i] == Edge(children[i].key, children[i].node.tree);
        RangeOfKids(tree.kids, i, currentKey, startKey, endKey, isExclusive);
        var newKey := currentKey + children[i].key;
        if Lt(endKey, newKey) {
          assert r + [] == r;
          return;
        }
        if !(Le(newKey, startKey) && !IsPrefix(newKey, startKey)) {
          ghost var before, more := r, Range(tree.kids[i].child, newKey, startKey, endKey, isExclusive);
          r := children[i].node.RangeSearchImpl(startKey, endKey, newKey, isExclusive, r);
          Joined(before, more, RangeKids(tree.kids[i + 1..], currentKey, startKey, endKey, isExclusive));
        }
        i := i + 1;
      }
      RangeOfNoKids(tree.kids[i..], currentKey, startKey, endKey, isExclusive);
      assert r + [] == r;
    }

    /** The child loop of search: the first child whose whole label begins `key`, if any. */
    method FollowChild(key: Bytes) returns (i: nat, found: bool)
      requires Valid()
      ensures Follow(tree.kids, key, 0) == if found then Some(i) else None
      ensures found ==> i < |children| && tree.kids[i] == Edge(children[i].key, children[i].node.tree)
    {
      i, found := 0, false;
      while i < |children|
        invariant i <= |children| && !found && Follow(tree.kids, key, 0) == Follow(tree.kids, key, i)
      {
        assert tree.kids[i] == Edge(children[i].key, children[i].node.tree);
        var length := MatchLength(key, children[i].key);
        if length == |children[i].key| { return i, true; }
        i := i + 1;
      }
    }
  }

  class RadixIndex {
    var root: RadixTreeNode?

    ghost function Value(): Tree
      reads this, root
    {
      if root == null then EMPTY_TREE else root.tree
    }

    ghost function Repr(): set<RadixTreeNode>
      reads this, root
    {
      if root == null then {} else root.repr
    }

    ghost predicate Valid()
      reads this, root, Repr()
    {
      (root != null ==> root.Valid()) && WellFormed(Value())
    }

    constructor ()
      ensures Valid() && Value() == EMPTY_TREE && Repr() == {}
    {
      root := null;
    }

    /** insert. */
    method Insert(key: Bytes, value: Bytes)
      requires Valid()
      modifies this, Repr()
      ensures Valid() && fresh(Repr() - old(Repr()))
      ensures Value() == RadixTree.Insert(old(Value()), key, value)
    {
      if root == null { root := new RadixTreeNode(); }
      root.InsertImpl(key, value);
    }

    /** search: the stored value, and the empty string for a key without one. */
    method Search(key: Bytes) returns (r: Bytes)
      requires Valid()
      ensures r == match Find(Value(), key) case Some(v) => v case None => []
    {
      if root == null { return []; }
      var node: RadixTreeNode := root;
      var remaining := key;
      while remaining != []
        invariant node.Valid() && WellFormed(node.tree)
        invariant Find(root.tree, key) == Find(node.tree, remaining)
        decreases |remaining|
      {
        var i, found := node.FollowChild(remaining);
        if !found { return []; }
        assert node.tree.kids[i] in node.tree.kids;
        remaining := remaining[|node.children[i].key|..];
        node := node.children[i].node;
      }
      return if node.isDataPresent then node.data else [];
    }

    /** rangeSearch: the stored pairs in the range, in ascending byte order. */
    method RangeSearch(startKey: Bytes, endKey: Bytes, isExclusive: bool) returns (r: seq<Entry>)
      requires Valid()
      ensures r == Select(Entries(Value(), []), startKey, endKey, isExclusive)
    {
      RangeIsSelect(Value(), [], startKey, endKey, isExclusive);
      if root == null { return []; }
      r := root.RangeSearchImpl(startKey, endKey, [], isExclusive, []);
    }
  }
}
