/** The binary search tree of the stock-prediction scripts (`BSTsearch.py`):
    nodes keyed by their `data` value, insertion that skips values already
    present, a node count, and the search that returns the node of equal
    value or else the nearer of the closest smaller and larger nodes met on
    the way down. */
module BstSearch {
  import opened Base

  /** `Node`: a value `data`, the `dataSet` it came from, and two subtrees. */
  class BNode<K> {
    const data: real
    const dataSet: K
    var left: BNode?<K>
    var right: BNode?<K>

    constructor (data: real, dataSet: K)
      ensures this.data == data && this.dataSet == dataSet && left == null && right == null
    {
      this.data := data;
      this.dataSet := dataSet;
      left := null;
      right := null;
    }

    /** `setLeft(left)`. */
    method SetLeft(left: BNode?<K>)
      modifies this`left
      ensures this.left == left
    {
      this.left := left;
    }

    /** `setRight(right)`. */
    method SetRight(right: BNode?<K>)
      modifies this`right
      ensures this.right == right
    {
      this.right := right;
    }
  }

  /** The shape of a tree of nodes, as a value: what the nodes' links
      describe when they form a tree. */
  datatype Tree<K> = Leaf | Nd(l: Tree<K>, n: BNode<K>, r: Tree<K>)

  /** The nodes of a tree. */
  ghost function Nodes<K>(t: Tree<K>): set<BNode<K>>
  {
    match t
    case Leaf => {}
    case Nd(l, n, r) => Nodes(l) + {n} + Nodes(r)
  }

  /** The nodes of a tree are objects of the heap. */
  lemma {:induction false} NodesAllocated<K>(t: Tree<K>)
    ensures forall x :: x in Nodes(t) ==> allocated(x)
  {
    match t
    case Leaf =>
    case Nd(l, n, r) =>
      NodesAllocated(l);
      NodesAllocated(r);
  }

  /** No node occurs twice. */
  ghost predicate Apart<K>(t: Tree<K>)
  {
    match t
    case Leaf => true
    case Nd(l, n, r) => n !in Nodes(l) && n !in Nodes(r) && Nodes(l) !! Nodes(r) && Apart(l) && Apart(r)
  }

  /** The links starting at `p` form the tree `t`. */
  ghost predicate Models<K>(p: BNode?<K>, t: Tree<K>)
    reads Nodes(t)
  {
    match t
    case Leaf => p == null
    case Nd(l, n, r) => p == n && Models(n.left, l) && Models(n.right, r)
  }

  /** The values stored in a tree. */
  function Keys<K>(t: Tree<K>): set<real>
  {
    match t
    case Leaf => {}
    case Nd(l, n, r) => Keys(l) + {n.data} + Keys(r)
  }

  /** The values stored in a tree, with their data sets. */
  function Contents<K>(t: Tree<K>): map<real, K>
  {
    match t
    case Leaf => map[]
    case Nd(l, n, r) => Contents(l) + map[n.data := n.dataSet] + Contents(r)
  }

  /** The binary search tree order: smaller values to the left of a node,
      larger ones to its right. */
  predicate Ordered<K>(t: Tree<K>)
  {
    match t
    case Leaf => true
    case Nd(l, n, r) =>
      Ordered(l) && Ordered(r) &&
      (forall x :: x in Keys(l) ==> x < n.data) && (forall x :: x in Keys(r) ==> n.data < x)
  }

  /** Adding value `d` from `ds` unless the value is already stored. */
  function Put<K>(m: map<real, K>, d: real, ds: K): (r: map<real, K>)
    ensures r.Keys == m.Keys + {d}
    ensures forall x :: x in m ==> r[x] == m[x]
    ensures d !in m ==> r[d] == ds
  {
    if d in m then m else m[d := ds]
  }

  /** The contents after inserting the entries `(dataSet, data)` in order. */
  function PutAll<K>(m: map<real, K>, entries: seq<(K, real)>): map<real, K>
  {
    if entries == [] then m
    else
      var e := entries[|entries| - 1];
      Put(PutAll(m, entries[..|entries| - 1]), e.1, e.0)
  }

  /** Inserting one more entry. */
  lemma PutAllSnoc<K>(m: map<real, K>, entries: seq<(K, real)>, i: int)
    requires 0 <= i < |entries|
    ensures PutAll(m, entries[..i + 1]) == Put(PutAll(m, entries[..i]), entries[i].1, entries[i].0)
  {
    assert entries[..i + 1][..i] == entries[..i];
  }

  /** The values of the entries. */
  function Values<K>(entries: seq<(K, real)>): set<real>
  {
    set i | 0 <= i < |entries| :: entries[i].1
  }

  /** Inserting entries stores exactly the values already there and those of
      the entries; a value keeps the data set of its first insertion. */
  lemma {:induction false} PutAllContents<K>(m: map<real, K>, entries: seq<(K, real)>)
    ensures PutAll(m, entries).Keys == m.Keys + Values(entries)
    ensures forall x :: x in m ==> PutAll(m, entries)[x] == m[x]
  {
    if entries != [] {
      var front := entries[..|entries| - 1];
      PutAllContents(m, front);
      assert Values(entries) == Values(front) + {entries[|entries| - 1].1} by {
        forall x | x in Values(entries)
          ensures x in Values(front) + {entries[|entries| - 1].1}
        {
          var i :| 0 <= i < |entries| && entries[i].1 == x;
          if i < |front| {
            assert front[i] == entries[i];
          }
        }
        forall x | x in Values(front)
          ensures x in Values(entries)
        {
          var i :| 0 <= i < |front| && front[i].1 == x;
          assert entries[i] == front[i];
        }
      }
    }
  }

  /** A value new to the tree gets the data set of the first entry that
      carries it. */
  lemma {:induction false} PutAllFirstWins<K>(m: map<real, K>, entries: seq<(K, real)>, i: int)
    requires 0 <= i < |entries| && entries[i].1 !in m
    requires forall j :: 0 <= j < i ==> entries[j].1 != entries[i].1
    ensures entries[i].1 in PutAll(m, entries) && PutAll(m, entries)[entries[i].1] == entries[i].0
  {
    var n := |entries| - 1;
    var front := entries[..n];
    if i < n {
      assert front[i] == entries[i];
      PutAllFirstWins(m, front, i);
      var d := entries[n].1;
      assert PutAll(m, entries) == Put(PutAll(m, front), d, entries[n].0);
    } else {
      forall j | 0 <= j < |front|
        ensures front[j].1 != entries[i].1
      {
        assert front[j] == entries[j];
      }
      PutAllContents(m, front);
      assert entries[i].1 !in Values(front);
    }
  }


  /** The tree after `_insert` of the leaf `node`: it goes where the search
      for its value ends, unless the value is already there. */
  function TInsert<K>(t: Tree<K>, node: BNode<K>): Tree<K>
  {
    match t
    case Leaf => Nd(Leaf, node, Leaf)
    case Nd(l, n, r) =>
      if n.data > node.data then Nd(TInsert(l, node), n, r)
      else if n.data < node.data then Nd(l, n, TInsert(r, node))
      else t
  }

  /** Insertion stores exactly the values there and the new one. */
  lemma {:induction false} InsertKeys<K>(t: Tree<K>, node: BNode<K>)
    ensures Keys(TInsert(t, node)) == Keys(t) + {node.data}
  {
    match t
    case Leaf =>
    case Nd(l, n, r) =>
      if n.data > node.data {
        InsertKeys(l, node);
      } else if n.data < node.data {
        InsertKeys(r, node);
      }
  }

  /** Insertion keeps the binary search tree order. */
  lemma {:induction false} InsertOrdered<K>(t: Tree<K>, node: BNode<K>)
    requires Ordered(t)
    ensures Ordered(TInsert(t, node))
  {
    match t
    case Leaf =>
    case Nd(l, n, r) =>
      if n.data > node.data {
        InsertOrdered(l, node);
        InsertKeys(l, node);
      } else if n.data < node.data {
        InsertOrdered(r, node);
        InsertKeys(r, node);
      }
  }

  /** In an ordered tree, insertion adds the new value with its data set
      and leaves a value already there with its own. */
  lemma {:induction false} InsertContents<K>(t: Tree<K>, node: BNode<K>)
    requires Ordered(t)
    ensures Contents(TInsert(t, node)) == Put(Contents(t), node.data, node.dataSet)
  {
    match t
    case Leaf =>
    case Nd(l, n, r) =>
      ContentsKeys(l);
      ContentsKeys(r);
      if n.data > node.data {
        InsertContents(l, node);
        PutUnionLeft(Contents(l), n.data, n.dataSet, Contents(r), node.data, node.dataSet);
      } else if n.data < node.data {
        InsertContents(r, node);
        PutUnionRight(Contents(l), n.data, n.dataSet, Contents(r), node.data, node.dataSet);
      }
  }

  /** Insertion adds the leaf as a node exactly when its value is new. */
  lemma {:induction false} InsertNodes<K>(t: Tree<K>, node: BNode<K>)
    requires Ordered(t)
    ensures Nodes(TInsert(t, node)) == Nodes(t) + (if node.data in Keys(t) then {} else {node})
  {
    match t
    case Leaf =>
    case Nd(l, n, r) =>
      if n.data > node.data {
        InsertNodes(l, node);
        assert node.data in Keys(t) <==> node.data in Keys(l);
      } else if n.data < node.data {
        InsertNodes(r, node);
        assert node.data in Keys(t) <==> node.data in Keys(r);
      }
  }

  /** Insertion of a node not in the tree keeps the nodes apart. */
  lemma {:induction false} InsertApart<K>(t: Tree<K>, node: BNode<K>)
    requires Apart(t) && Ordered(t) && node !in Nodes(t)
    ensures Apart(TInsert(t, node))
  {
    match t
    case Leaf =>
    case Nd(l, n, r) =>
      if n.data > node.data {
        InsertApart(l, node);
        InsertNodes(l, node);
      } else if n.data < node.data {
        InsertApart(r, node);
        InsertNodes(r, node);
      }
  }

  /** Adding an element to a set grows it by one exactly when it is new. */
  lemma AddCard(s: set<real>, x: real)
    ensures |s + {x}| == |s| + (if x in s then 0 else 1)
  {
    if x in s {
      assert s + {x} == s;
    } else {
      assert s * {x} == {};
    }
  }

  /** What inserting a node that is not yet in a valid tree does, in the
      terms `BinaryTree.Valid` uses. */
  lemma InsertFacts<K>(t: Tree<K>, node: BNode<K>)
    requires Apart(t) && Ordered(t) && node !in Nodes(t)
    ensures Apart(TInsert(t, node)) && Ordered(TInsert(t, node))
    ensures |Keys(TInsert(t, node))| == |Keys(t)| + (if node.data in Keys(t) then 0 else 1)
    ensures Contents(TInsert(t, node)) == Put(Contents(t), node.data, node.dataSet)
    ensures Nodes(TInsert(t, node)) - Nodes(t) <= {node}
  {
    InsertKeys(t, node);
    AddCard(Keys(t), node.data);
    InsertOrdered(t, node);
    InsertContents(t, node);
    InsertNodes(t, node);
    InsertApart(t, node);
  }

  /** The values of the contents are the keys. */
  lemma {:induction false} ContentsKeys<K>(t: Tree<K>)
    ensures Contents(t).Keys == Keys(t)
  {
    match t
    case Leaf =>
    case Nd(l, n, r) =>
      ContentsKeys(l);
      ContentsKeys(r);
  }

  /** Adding a value smaller than a node's adds it to the left part. */
  lemma PutUnionLeft<K>(a: map<real, K>, c: real, cv: K, b: map<real, K>, d: real, v: K)
    requires forall x :: x in a ==> x < c
    requires forall x :: x in b ==> c < x
    requires d < c
    ensures Put(a + map[c := cv] + b, d, v) == Put(a, d, v) + map[c := cv] + b
  {
  }

  /** Adding a value larger than a node's adds it to the right part. */
  lemma PutUnionRight<K>(a: map<real, K>, c: real, cv: K, b: map<real, K>, d: real, v: K)
    requires forall x :: x in a ==> x < c
    requires forall x :: x in b ==> c < x
    requires c < d
    ensures Put(a + map[c := cv] + b, d, v) == a + map[c := cv] + Put(b, d, v)
  {
  }

  /** `BinaryTree`: the root and the count `num` of nodes inserted, with
      the ghost shape `T` of the tree the root starts. */
  class BinaryTree<K> {
    var root: BNode?<K>
    var num: int
    ghost var T: Tree<K>
    ghost var Repr: set<BNode<K>>

    /** The root's links form `T`, whose nodes are `Repr`, a binary search
        tree, and `num` counts its distinct values. */
    ghost predicate Valid()
      reads this, Repr
    {
      Repr == Nodes(T) && Models(root, T) && Apart(T) && Ordered(T) && num == |Keys(T)|
    }

    constructor ()
      ensures Valid() && T == Leaf
    {
      root := null;
      num := 0;
      T := Leaf;
      Repr := {};
    }

    /** `size()`: the number of distinct values stored. */
    method Size() returns (r: int)
      requires Valid()
      ensures r == |Keys(T)|
    {
      return num;
    }

    /** `isEmpty()` as written: true exactly when `num` is nonzero. */
    function IsEmptyAsWritten(): (r: bool)
      requires Valid()
      reads this, Repr
      ensures r <==> Keys(T) != {}
    {
      if num != 0 then true else false
    }

    /** `isEmpty()` as its name promises: true exactly when nothing is
        stored. */
    function IsEmpty(): (r: bool)
      requires Valid()
      reads this, Repr
      ensures r <==> Keys(T) == {}
    {
      num == 0
    }

    /** `_insert(curr, node)` for a leaf `node`: below an empty spot it
        counts the node and hands it back to be linked in; below a node it
        descends by value, links the leaf where the search ends and hands
        back nothing, and a value already present changes nothing. */
    method InsertAt(curr: BNode?<K>, node: BNode<K>, ghost t: Tree<K>) returns (temp: BNode?<K>)
      requires Models(curr, t) && Apart(t) && Ordered(t) && node !in Nodes(t) && node.left == null && node.right == null
      modifies this`num, Nodes(t)
      decreases t
      ensures temp == (if curr == null then node else null)
      ensures Models(if curr == null then node else curr, TInsert(t, node))
      ensures num == old(num) + (if node.data in Keys(t) then 0 else 1)
    {
      if curr == null {
        num := num + 1;
        return node;
      }
      if curr.data > node.data {
        InsertNodes(t.l, node);
        NodesAllocated(t);
        var temp' := InsertAt(curr.left, node, t.l);
        assert Models(curr.right, t.r);
        if temp' != null {
          curr.SetLeft(temp');
        }
        assert Models(curr.left, TInsert(t.l, node)) && Models(curr.right, t.r);
      } else if curr.data < node.data {
        InsertNodes(t.r, node);
        NodesAllocated(t);
        var temp' := InsertAt(curr.right, node, t.r);
        assert Models(curr.left, t.l);
        if temp' != null {
          curr.SetRight(temp');
        }
        assert Models(curr.right, TInsert(t.r, node)) && Models(curr.left, t.l);
      }
      return null;
    }

    /** `insert(dic)`: a leaf for each entry `(dataSet, data)` in turn,
        inserted from the root. */
    method Insert(entries: seq<(K, real)>)
      requires Valid()
      modifies this, Repr
      ensures Valid() && Contents(T) == PutAll(old(Contents(T)), entries)
      ensures fresh(Repr - old(Repr))
    {
      ghost var c0 := Contents(T);
      ghost var r0 := Repr;
      for i := 0 to |entries|
        invariant Valid() && Contents(T) == PutAll(c0, entries[..i])
        invariant fresh(Repr - r0)
      {
        InsertEntry(entries[i].0, entries[i].1);
        PutAllSnoc(c0, entries, i);
      }
      assert entries[..|entries|] == entries;
    }

    /** One pass of the loop of `insert`: the leaf `Node(data, dataSet)`
        inserted from the root, becoming the root of an empty tree. */
    method InsertEntry(dataSet: K, data: real)
      requires Valid()
      modifies this, Repr
      ensures Valid() && Contents(T) == Put(old(Contents(T)), data, dataSet)
      ensures fresh(Repr - old(Repr))
    {
      var node := new BNode(data, dataSet);
      ghost var t := TInsert(T, node);
      InsertFacts(T, node);
      var temp := InsertAt(root, node, T);
      Commit(temp, t, node);
    }

    /** Hangs a new root in place if the tree was empty, and records the
        tree the nodes now form. */
    method Commit(temp: BNode?<K>, ghost t: Tree<K>, ghost node: BNode<K>)
      requires Models(if temp != null then temp else root, t)
      requires Apart(t) && Ordered(t) && num == |Keys(t)| && Nodes(t) <= Repr + {node}
      modifies this`root, this`T, this`Repr
      ensures root == (if temp != null then temp else old(root)) && T == t
      ensures Valid() && Repr <= old(Repr) + {node}
    {
      ghost var p := if temp != null then temp else root;
      if temp != null {
        root := temp;
      }
      assert root == p;
      T := t;
      Repr := Nodes(t);
      assert Models(p, t);
    }

    /** `find(node)` for a query of value `target`: the node of that value
        if there is one, otherwise the nearer of the closest smaller and the
        closest larger value, the larger on a tie; `None` stands for the
        `AttributeError` raised when one of the two does not exist. */
    function Find(target: real): (r: Option<BNode<K>>)
      requires Valid()
      reads this, Repr
      ensures target in Keys(T) ==> r.Some? && r.value.data == target && target in Contents(T) && r.value.dataSet == Contents(T)[target]
      ensures target !in Keys(T) ==>
        (r.None? <==> (forall k :: k in Keys(T) ==> target < k) || (forall k :: k in Keys(T) ==> k < target))
      ensures r.Some? ==> r.value.data in Contents(T) && Contents(T)[r.value.data] == r.value.dataSet
      ensures r.Some? && target !in Keys(T) ==> Nearest<K>(Keys(T), null, null, target, r.value.data)
    {
      FindFromRoot(root, target, T);
      FindFrom(root, null, null, target, T)
    }
  }

  /** `_find(curr, big, small, node)` for a query of value `target`: the
      nodes `big` and `small` are the closest larger and smaller values met
      so far. */
  function FindFrom<K>(curr: BNode?<K>, big: BNode?<K>, small: BNode?<K>, target: real, ghost t: Tree<K>): Option<BNode<K>>
    requires Models(curr, t)
    reads Nodes(t)
    decreases t
  {
    if curr == null then
      if small == null || big == null then None
      else if target - small.data < big.data - target then Some(small)
      else Some(big)
    else if curr.data > target then FindFrom(curr.left, curr, small, target, t.l)
    else if curr.data < target then FindFrom(curr.right, big, curr, target, t.r)
    else Some(curr)
  }

  /** No value below `target`, neither stored nor as the bound `small`. */
  predicate NoneBelow<K>(ks: set<real>, small: BNode?<K>, target: real)
  {
    small == null && forall k :: k in ks ==> target <= k
  }

  /** No value above `target`, neither stored nor as the bound `big`. */
  predicate NoneAbove<K>(ks: set<real>, big: BNode?<K>, target: real)
  {
    big == null && forall k :: k in ks ==> k <= target
  }

  /** `v` is the closest value below `target` and nearer than every value
      above it, or the closest value above and at least as near as every
      value below; the values are those of `ks` and the bounds. */
  predicate Nearest<K>(ks: set<real>, big: BNode?<K>, small: BNode?<K>, target: real, v: real)
  {
    (v < target ==>
      (small != null ==> small.data <= v) && (forall k :: k in ks && k < target ==> k <= v) &&
      (big != null ==> target - v < big.data - target) && (forall k :: k in ks && target < k ==> target - v < k - target)) &&
    (target < v ==>
      (big != null ==> v <= big.data) && (forall k :: k in ks && target < k ==> v <= k) &&
      (small != null ==> v - target <= target - small.data) && (forall k :: k in ks && k < target ==> v - target <= target - k))
  }

  /** The bounds `_find` is called with: `small` below the query and below
      every value of the subtree, `big` above both. */
  predicate Bounds<K>(t: Tree<K>, big: BNode?<K>, small: BNode?<K>, target: real)
  {
    (small != null ==> small.data < target && forall k :: k in Keys(t) ==> small.data < k) &&
    (big != null ==> target < big.data && forall k :: k in Keys(t) ==> k < big.data)
  }

  /** A value stored in the subtree is found, at a node of the subtree. */
  lemma {:induction false} FindFound<K>(curr: BNode?<K>, big: BNode?<K>, small: BNode?<K>, target: real, t: Tree<K>)
    requires Models(curr, t) && Ordered(t) && target in Keys(t)
    ensures FindFrom(curr, big, small, target, t).Some?
    ensures FindFrom(curr, big, small, target, t).value.data == target
    ensures FindFrom(curr, big, small, target, t).value in Nodes(t)
    decreases t
  {
    if curr.data > target {
      assert target in Keys(t.l);
      FindFound(curr.left, curr, small, target, t.l);
    } else if curr.data < target {
      assert target in Keys(t.r);
      FindFound(curr.right, big, curr, target, t.r);
    }
  }

  /** A value not stored gives nothing exactly when no value lies on one
      side of it. */
  lemma {:induction false} FindMissing<K>(curr: BNode?<K>, big: BNode?<K>, small: BNode?<K>, target: real, t: Tree<K>)
    requires Models(curr, t) && Ordered(t) && target !in Keys(t)
    ensures FindFrom(curr, big, small, target, t).None? <==> NoneBelow(Keys(t), small, target) || NoneAbove(Keys(t), big, target)
    decreases t
  {
    if curr != null {
      if curr.data > target {
        FindMissing(curr.left, curr, small, target, t.l);
        assert NoneBelow(Keys(t), small, target) <==> NoneBelow(Keys(t.l), small, target);
      } else {
        FindMissing(curr.right, big, curr, target, t.r);
        assert NoneAbove(Keys(t), big, target) <==> NoneAbove(Keys(t.r), big, target);
      }
    }
  }

  /** The node found is one of the bounds or a node of the subtree. */
  lemma {:induction false} FindCandidate<K>(curr: BNode?<K>, big: BNode?<K>, small: BNode?<K>, target: real, t: Tree<K>)
    requires Models(curr, t) && FindFrom(curr, big, small, target, t).Some?
    ensures FindFrom(curr, big, small, target, t).value in {small, big} + Nodes(t)
    decreases t
  {
    if curr != null {
      if curr.data > target {
        FindCandidate(curr.left, curr, small, target, t.l);
      } else if curr.data < target {
        FindCandidate(curr.right, big, curr, target, t.r);
      }
    }
  }

  /** For a value not stored, the node found is the nearer of the closest
      values below and above. */
  lemma {:induction false} FindNearest<K>(curr: BNode?<K>, big: BNode?<K>, small: BNode?<K>, target: real, t: Tree<K>)
    requires Models(curr, t) && Ordered(t) && Bounds(t, big, small, target) && target !in Keys(t)
    requires FindFrom(curr, big, small, target, t).Some?
    ensures Nearest(Keys(t), big, small, target, FindFrom(curr, big, small, target, t).value.data)
    decreases t
  {
    if curr != null {
      if curr.data > target {
        FindNearest(curr.left, curr, small, target, t.l);
      } else {
        FindNearest(curr.right, big, curr, target, t.r);
      }
    }
  }

  /** `_find` from the root, without bounds. */
  lemma FindFromRoot<K>(root: BNode?<K>, target: real, t: Tree<K>)
    requires Models(root, t) && Ordered(t)
    ensures target in Keys(t) ==>
      FindFrom(root, null, null, target, t).Some? && FindFrom(root, null, null, target, t).value.data == target
    ensures target !in Keys(t) ==>
      (FindFrom(root, null, null, target, t).None? <==>
       (forall k :: k in Keys(t) ==> target < k) || (forall k :: k in Keys(t) ==> k < target))
    ensures FindFrom(root, null, null, target, t).Some? ==>
      var v := FindFrom(root, null, null, target, t).value;
      v.data in Contents(t) && Contents(t)[v.data] == v.dataSet
    ensures FindFrom(root, null, null, target, t).Some? && target !in Keys(t) ==>
      Nearest<K>(Keys(t), null, null, target, FindFrom(root, null, null, target, t).value.data)
  {
    var r := FindFrom(root, null, null, target, t);
    if target in Keys(t) {
      FindFound(root, null, null, target, t);
      NodeContents(t, r.value);
    } else {
      FindMissing(root, null, null, target, t);
      if r.Some? {
        FindCandidate(root, null, null, target, t);
        FindNearest(root, null, null, target, t);
        NodeContents(t, r.value);
      }
    }
  }

  /** In an ordered tree a node's value maps to its own data set. */
  lemma {:induction false} NodeContents<K>(t: Tree<K>, x: BNode<K>)
    requires Ordered(t) && x in Nodes(t)
    ensures x.data in Contents(t) && Contents(t)[x.data] == x.dataSet
  {
    match t
    case Nd(l, n, r) =>
      ContentsKeys(l);
      ContentsKeys(r);
      if x in Nodes(l) {
        NodeContents(l, x);
      } else if x in Nodes(r) {
        NodeContents(r, x);
      }
  }
}
