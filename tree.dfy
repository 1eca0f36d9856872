/** The search tree of the stock predictor (`TreeTraversal.py`): nodes that
    hold a dataset and its value, built level by level from a table, then
    counted and searched breadth first with a queue. Nodes are objects and
    a node's children are the list it holds. The order in which the queue
    visits the nodes below a root is described by a ghost sequence. */
module TreeTraversal {
  import opened Base

  /** `Node(dataset, value)` with its `children` list. */
  class Node<K> {
    const dataset: K
    const value: real
    var children: seq<Node<K>>

    constructor (dataset: K, value: real)
      ensures this.dataset == dataset && this.value == value && children == []
    {
      this.dataset := dataset;
      this.value := value;
      children := [];
    }

    /** `addChild(node)`. */
    method AddChild(node: Node<K>)
      modifies this`children
      ensures children == old(children) + [node]
    {
      children := children + [node];
    }

    /** `getRevChildren()`: a reversed copy; `children` is not touched. */
    method GetRevChildren() returns (r: seq<Node<K>>)
      ensures |r| == |children|
      ensures forall i :: 0 <= i < |r| ==> r[i] == children[|children| - 1 - i]
      ensures Reverse(r) == children
    {
      r := Reverse(children);
      ReverseReverse(children);
    }
  }

  // ---------------------------------------------------------------------
  // The breadth-first order
  // ---------------------------------------------------------------------

  /** The children of the nodes of `ns`, node after node: what the queue
      receives while those nodes are taken out of it. */
  ghost function Kids<K>(ns: seq<Node<K>>): seq<Node<K>>
    reads ns
  {
    if ns == [] then [] else Kids(ns[..|ns| - 1]) + ns[|ns| - 1].children
  }

  /** `ns` lists the nodes that a queue started with `root` takes out, in
      that order: the root, then the children of the listed nodes in turn,
      and the queue does not run dry before the end of the list. */
  ghost predicate BfsOrder<K>(root: Node<K>, ns: seq<Node<K>>)
    reads ns
  {
    |ns| >= 1 && ns[0] == root && Kids(ns) == ns[1..] &&
    forall c :: 0 < c < |ns| ==> |Kids(ns[..c])| >= c
  }

  lemma KidsSnoc<K>(ns: seq<Node<K>>, c: nat)
    requires c < |ns|
    ensures Kids(ns[..c + 1]) == Kids(ns[..c]) + ns[c].children
  {
    assert ns[..c + 1][..c] == ns[..c];
  }

  /** The children of a prefix of the list come first among all children. */
  lemma {:induction false} KidsPrefix<K>(ns: seq<Node<K>>, c: nat)
    requires c <= |ns|
    ensures IsPrefix(Kids(ns[..c]), Kids(ns))
    decreases |ns| - c
  {
    if c < |ns| {
      KidsSnoc(ns, c);
      KidsPrefix(ns, c + 1);
      var a, b := Kids(ns[..c]), Kids(ns[..c + 1]);
      assert b[..|a|] == a;
      assert Kids(ns)[..|a|] == Kids(ns)[..|b|][..|a|];
    } else {
      assert ns[..c] == ns;
    }
  }

  /** When `c` nodes have been taken out, the queue holds the nodes listed
      from `c` up to one past the children received so far. */
  ghost predicate QueueAt<K>(ns: seq<Node<K>>, c: nat, queue: seq<Node<K>>)
    reads ns
  {
    c <= |ns| && c <= 1 + |Kids(ns[..c])| <= |ns| && queue == ns[c..1 + |Kids(ns[..c])|]
  }

  lemma QueueStart<K>(root: Node<K>, ns: seq<Node<K>>)
    requires BfsOrder(root, ns)
    ensures QueueAt(ns, 0, [root])
  {
    assert ns[..0] == [];
  }

  /** Taking out node `c` and putting in its children gives the queue of
      `c + 1`. */
  lemma QueueStep<K>(root: Node<K>, ns: seq<Node<K>>, c: nat, queue: seq<Node<K>>)
    requires BfsOrder(root, ns) && QueueAt(ns, c, queue) && queue != []
    ensures c < |ns| && queue[0] == ns[c]
    ensures QueueAt(ns, c + 1, queue[1..] + ns[c].children)
  {
    var a, ch := Kids(ns[..c]), ns[c].children;
    KidsSnoc(ns, c);
    assert Kids(ns[..c + 1]) == a + ch;
    KidsPrefix(ns, c + 1);
    KidsPrefix(ns, |ns|);
    assert ns[..|ns|] == ns;
    assert IsPrefix(a + ch, ns[1..]);
    QueueSlices(ns, a, ch, c);
    DropFirst(ns, c, 1 + |a|);
    assert queue[1..] + ch == ns[c + 1..1 + |a| + |ch|];
  }

  lemma DropFirst<T>(s: seq<T>, i: nat, j: nat)
    requires i < j <= |s|
    ensures s[i..j][1..] == s[i + 1..j]
  {
  }

  /** The queue arithmetic on the list alone: when the children received
      `a + ch` follow the root in `ns`, the nodes after `c` up to their end
      are those up to the end of `a`, then `ch`. */
  lemma QueueSlices<T>(ns: seq<T>, a: seq<T>, ch: seq<T>, c: nat)
    requires c <= |a| && 1 + |a| + |ch| <= |ns|
    requires IsPrefix(a + ch, ns[1..])
    ensures ns[c + 1..1 + |a| + |ch|] == ns[c + 1..1 + |a|] + ch
  {
    var b := a + ch;
    forall i | 0 <= i < |ch|
      ensures ns[1 + |a| + i] == ch[i]
    {
      assert ns[1..][|a| + i] == b[|a| + i];
    }
  }

  /** The queue runs dry exactly at the end of the list. */
  lemma QueueEnd<K>(root: Node<K>, ns: seq<Node<K>>, c: nat)
    requires BfsOrder(root, ns) && QueueAt(ns, c, [])
    ensures c == |ns|
  {
  }

  /** The `for childIndex` loop that puts each child in the queue. */
  method Enqueue<K>(queue: seq<Node<K>>, kids: seq<Node<K>>) returns (q: seq<Node<K>>)
    ensures q == queue + kids
  {
    q := queue;
    for i := 0 to |kids|
      invariant q == queue + kids[..i]
    {
      assert kids[..i + 1] == kids[..i] + [kids[i]];
      q := q + [kids[i]];
    }
    assert kids[..|kids|] == kids;
  }

  // ---------------------------------------------------------------------
  // countOfAllTreeNodes and breadthFirstSearch
  // ---------------------------------------------------------------------

  /** `countOfAllTreeNodes(rootNode)`: one count per node the queue takes
      out. */
  method CountOfAllTreeNodes<K>(root: Node<K>, ghost ns: seq<Node<K>>) returns (count: nat)
    requires BfsOrder(root, ns)
    ensures count == |ns|
  {
    var queue := [root];
    count := 0;
    QueueStart(root, ns);
    while |queue| > 0
      invariant QueueAt(ns, count, queue)
      decreases |ns| - count
    {
      QueueStep(root, ns, count, queue);
      var node := queue[0];
      queue := queue[1..];
      queue := Enqueue(queue, node.children);
      count := count + 1;
    }
    QueueEnd(root, ns, count);
  }

  /** `abs(a - b)`. */
  function Dist(a: real, b: real): (d: real)
    ensures d >= 0.0
  {
    if a - b < 0.0 then b - a else a - b
  }

  /** The distance of each listed node's value from `target`. */
  function Dists<K>(ns: seq<Node<K>>, target: real): (ds: seq<real>)
    ensures |ds| == |ns|
    ensures forall i :: 0 <= i < |ns| ==> ds[i] == Dist(target, ns[i].value)
  {
    seq(|ns|, i requires 0 <= i < |ns| => Dist(target, ns[i].value))
  }

  /** Position `f` holds the first of the smallest distances. */
  predicate FirstMin(ds: seq<real>, f: int)
  {
    0 <= f < |ds| &&
    (forall j :: 0 <= j < |ds| ==> ds[f] <= ds[j]) &&
    (forall j :: 0 <= j < f ==> ds[f] < ds[j])
  }

  /** Node `f` is the first in the list whose value is closest to `target`. */
  predicate FirstClosest<K>(ns: seq<Node<K>>, target: real, f: int)
  {
    FirstMin(Dists(ns, target), f)
  }

  /** After `c` distances, `d` at position `bf` is the smallest so far and
      the first of the smallest. */
  predicate BestSoFar(ds: seq<real>, c: nat, bf: nat, d: real)
  {
    c <= |ds| && bf < |ds| && (bf == 0 || bf < c) && d == ds[bf] &&
    (forall j :: 0 <= j < c ==> d <= ds[j]) &&
    (forall j :: 0 <= j < bf ==> d < ds[j])
  }

  /** Looking at distance `c` keeps the best so far, or replaces it when
      strictly smaller. */
  lemma BestStep(ds: seq<real>, c: nat, bf: nat, d: real)
    requires BestSoFar(ds, c, bf, d) && c < |ds|
    ensures ds[c] < d ==> BestSoFar(ds, c + 1, c, ds[c])
    ensures !(ds[c] < d) ==> BestSoFar(ds, c + 1, bf, d)
  {
  }

  /** The best of all distances is the first smallest; so is a best of 0
      when no distance is negative. */
  lemma BestFirstMin(ds: seq<real>, c: nat, bf: nat, d: real)
    requires BestSoFar(ds, c, bf, d)
    requires c == |ds| || (d == 0.0 && forall j :: 0 <= j < |ds| ==> ds[j] >= 0.0)
    ensures FirstMin(ds, bf)
  {
  }

  /** The search from distance `c` on, with `d` at position `bf` the
      closest so far: a strictly smaller distance replaces it, and the
      search stops once the closest so far is 0. The result is the
      position found. */
  function Search(ds: seq<real>, c: nat, bf: nat, d: real): nat
    decreases |ds| - c
  {
    if c >= |ds| then bf
    else if ds[c] < d then (if ds[c] == 0.0 then c else Search(ds, c + 1, c, ds[c]))
    else if d == 0.0 then bf
    else Search(ds, c + 1, bf, d)
  }

  /** The search's answer is the best so far, or a later position strictly
      closer than the best distance so far. */
  lemma {:induction false} SearchAnswer(ds: seq<real>, c: nat, bf: nat, d: real)
    ensures var r := Search(ds, c, bf, d); r == bf || (c <= r < |ds| && ds[r] < d)
    decreases |ds| - c
  {
    if c < |ds| {
      if ds[c] < d && ds[c] != 0.0 {
        SearchAnswer(ds, c + 1, c, ds[c]);
      } else if ds[c] >= d && d != 0.0 {
        SearchAnswer(ds, c + 1, bf, d);
      }
    }
  }

  /** Started at the root, the search finds the first closest node. */
  lemma SearchFromRoot<K>(ns: seq<Node<K>>, value: real)
    requires |ns| >= 1
    ensures FirstClosest(ns, value, Search(Dists(ns, value), 0, 0, Dists(ns, value)[0]))
  {
    var ds := Dists(ns, value);
    SearchFirstMin(ds, 0, 0, ds[0]);
  }

  /** One step of the search: the closest so far after distance `c`, and
      either the end of the search, at 0, or the search from `c + 1`. */
  lemma SearchNext(ds: seq<real>, c: nat, bf: nat, d: real, bf': nat, d': real)
    requires c < |ds|
    requires (bf', d') == if ds[c] < d then (c, ds[c]) else (bf, d)
    ensures d' == 0.0 ==> Search(ds, c, bf, d) == bf'
    ensures d' != 0.0 ==> Search(ds, c, bf, d) == Search(ds, c + 1, bf', d')
  {
  }

  /** Started from the best so far, the search finds the first smallest
      distance, provided no distance is negative. */
  lemma {:induction false} SearchFirstMin(ds: seq<real>, c: nat, bf: nat, d: real)
    requires BestSoFar(ds, c, bf, d)
    requires forall j :: 0 <= j < |ds| ==> ds[j] >= 0.0
    ensures FirstMin(ds, Search(ds, c, bf, d))
    decreases |ds| - c
  {
    if c == |ds| {
      BestFirstMin(ds, c, bf, d);
    } else {
      BestStep(ds, c, bf, d);
      if ds[c] < d {
        if ds[c] == 0.0 {
          BestFirstMin(ds, c + 1, c, ds[c]);
        } else {
          SearchFirstMin(ds, c + 1, c, ds[c]);
        }
      } else if d == 0.0 {
        BestFirstMin(ds, c + 1, bf, d);
      } else {
        SearchFirstMin(ds, c + 1, bf, d);
      }
    }
  }

  /** One pass of the search loop: node `c` is the head of the queue, its
      distance is `ds[c]`, and taking it into account either ends the
      search with the answer or leaves the same answer for the search from
      `c + 1`. */
  lemma VisitStep<K>(root: Node<K>, ns: seq<Node<K>>, ds: seq<real>, value: real, c: nat,
                     queue: seq<Node<K>>, bf: nat, d: real, result: nat)
    requires BfsOrder(root, ns) && QueueAt(ns, c, queue) && queue != []
    requires ds == Dists(ns, value) && Search(ds, c, bf, d) == result
    ensures c < |ns| && queue[0] == ns[c] && QueueAt(ns, c + 1, queue[1..] + ns[c].children)
    ensures Dist(value, queue[0].value) == ds[c]
    ensures var (bf', d') := if ds[c] < d then (c, ds[c]) else (bf, d);
      (d' == 0.0 ==> result == bf') && (d' != 0.0 ==> Search(ds, c + 1, bf', d') == result)
  {
    QueueStep(root, ns, c, queue);
    var (bf', d') := if ds[c] < d then (c, ds[c]) else (bf, d);
    SearchNext(ds, c, bf, d, bf', d');
  }

  /** `breadthFirstSearch(rootNode, value)`: the node closest to `value`,
      the first in breadth-first order among equally close ones. The search
      stops at a node of difference 0, which is then the first closest. */
  method BreadthFirstSearch<K>(root: Node<K>, value: real, ghost ns: seq<Node<K>>) returns (found: Node<K>)
    requires BfsOrder(root, ns)
    ensures exists f :: FirstClosest(ns, value, f) && found == ns[f]
  {
    ghost var ds := Dists(ns, value);
    ghost var result := Search(ds, 0, 0, ds[0]);
    SearchFromRoot(ns, value);
    var queue := [root];
    found := root;
    var difference := Dist(value, root.value);
    var count := 0;
    ghost var bf: nat := 0;
    ghost var stopped := false;
    QueueStart(root, ns);
    while |queue| > 0
      invariant QueueAt(ns, count, queue)
      invariant bf < |ds| && found == ns[bf] && difference == ds[bf]
      invariant Search(ds, count, bf, difference) == result
      decreases |ns| - count
    {
      VisitStep(root, ns, ds, value, count, queue, bf, difference, result);
      var node := queue[0];
      queue := queue[1..];
      var currDifference := Dist(value, node.value);
      if currDifference < difference {
        difference := currDifference;
        found := node;
        bf := count;
      }
      if difference == 0.0 {
        stopped := true;
        break;
      }
      queue := Enqueue(queue, node.children);
      count := count + 1;
    }
    if !stopped {
      QueueEnd(root, ns, count);
    }
    assert FirstClosest(ns, value, bf);
  }

  // ---------------------------------------------------------------------
  // createTree
  // ---------------------------------------------------------------------

  /** The position of the first child of node `j` when every node has `k`
      children: `1 + j * k`. */
  function Lo(j: nat, k: nat): (r: nat)
    ensures r >= 1
  {
    if j == 0 then 1 else Lo(j - 1, k) + k
  }

  lemma {:induction false} LoMono(i: nat, j: nat, k: nat)
    requires i <= j
    ensures Lo(i, k) <= Lo(j, k)
    decreases j
  {
    if i < j {
      LoMono(i, j - 1, k);
    }
  }

  lemma {:induction false} LoAbove(j: nat, k: nat)
    requires k >= 1
    ensures Lo(j, k) >= j + 1
  {
    if j > 0 {
      LoAbove(j - 1, k);
    }
  }

  function Min(a: int, b: int): int
  {
    if a <= b then a else b
  }

  /** `cs` lists the children lists the nodes of `ns` hold. */
  ghost predicate Linked<K>(ns: seq<Node<K>>, cs: seq<seq<Node<K>>>)
    reads ns
  {
    |cs| == |ns| && forall i :: 0 <= i < |ns| ==> ns[i].children == cs[i]
  }

  /** The nodes of the complete `k`-ary tree in breadth-first order: node
      `j` has as children the nodes from `1 + j * k` to `1 + (j + 1) * k`, cut
      at the end of the list. */
  ghost predicate KAry<K>(ns: seq<Node<K>>, k: nat)
    reads ns
  {
    forall j :: 0 <= j < |ns| ==> ns[j].children == ns[Min(Lo(j, k), |ns|)..Min(Lo(j + 1, k), |ns|)]
  }

  /** The children of the first `c` nodes of a complete `k`-ary list are the
      nodes after the root up to the first child of node `c`. */
  lemma {:induction false} KAryKids<K>(ns: seq<Node<K>>, k: nat, c: nat)
    requires 1 <= |ns| && c <= |ns| && KAry(ns, k)
    ensures Kids(ns[..c]) == ns[1..Min(Lo(c, k), |ns|)]
  {
    var n := |ns|;
    if c > 0 {
      KAryKids(ns, k, c - 1);
      KidsSnoc(ns, c - 1);
      var a, b := Min(Lo(c - 1, k), n), Min(Lo(c, k), n);
      assert ns[c - 1].children == ns[a..b];
      SliceConcat(ns, 1, a, b);
    } else {
      assert ns[..0] == [];
    }
  }

  lemma SliceConcat<T>(s: seq<T>, a: int, b: int, c: int)
    requires 0 <= a <= b <= c <= |s|
    ensures s[a..b] + s[b..c] == s[a..c]
  {
  }

  /** A complete `k`-ary list is the breadth-first order of its root. */
  lemma KAryBfs<K>(ns: seq<Node<K>>, k: nat)
    requires 1 <= |ns| && (k >= 1 || |ns| <= 1) && KAry(ns, k)
    ensures BfsOrder(ns[0], ns)
  {
    var n := |ns|;
    KAryKids(ns, k, n);
    assert ns[..n] == ns;
    if k >= 1 {
      LoAbove(n, k);
    }
    forall c | 0 < c < n
      ensures |Kids(ns[..c])| >= c
    {
      KAryKids(ns, k, c);
      LoAbove(c, k);
    }
  }

  lemma DistinctAppend<T>(a: seq<T>, b: seq<T>)
    requires Distinct(a) && Distinct(b)
    requires forall i, j :: 0 <= i < |a| && 0 <= j < |b| ==> a[i] != b[j]
    ensures Distinct(a + b)
  {
  }

  /** `s[a:b]` when that is a slice of `s`. */
  function Between<T>(s: seq<T>, a: int, b: int): seq<T>
  {
    if 0 <= a <= b <= |s| then s[a..b] else []
  }

  /** `createTree`'s progress, on the children lists `cs` of the nodes `ns`
      made so far: the first `p` parents have their children, the nodes of
      a complete `k`-ary tree of `n` nodes, and the others have none. */
  predicate Layout<K>(cs: seq<seq<Node<K>>>, ns: seq<Node<K>>, k: nat, n: nat, p: nat)
  {
    |cs| == |ns| && p <= |ns| &&
    (forall j :: 0 <= j < p ==> Placed(cs, ns, k, n, j)) &&
    (forall j :: p <= j < |cs| ==> cs[j] == [])
  }

  /** Node `j` has its children: the nodes from `1 + j * k` to
      `1 + (j + 1) * k`, cut at `n`. */
  predicate Placed<K>(cs: seq<seq<Node<K>>>, ns: seq<Node<K>>, k: nat, n: nat, j: nat)
    requires j < |cs|
  {
    cs[j] == Between(ns, Min(Lo(j, k), n), Min(Lo(j + 1, k), n))
  }

  /** Parent `p` receives the next entries as children: `cs'` is `cs` with
      those children for `p` and no children for the new nodes. */
  lemma LayoutStep<K>(cs: seq<seq<Node<K>>>, cs': seq<seq<Node<K>>>, ns: seq<Node<K>>, added: seq<Node<K>>, k: nat, n: nat, p: nat)
    requires Layout(cs, ns, k, n, p) && p < |ns|
    requires |ns| == Min(Lo(p, k), n) && |added| == Min(k, n - |ns|)
    requires |cs'| == |ns| + |added| && cs'[p] == added
    requires forall j :: 0 <= j < |ns| && j != p ==> cs'[j] == cs[j]
    requires forall j :: |ns| <= j < |cs'| ==> cs'[j] == []
    ensures Layout(cs', ns + added, k, n, p + 1)
    ensures |ns| + |added| == Min(Lo(p + 1, k), n)
  {
    var ns' := ns + added;
    assert ns'[..|ns|] == ns;
    forall j | 0 <= j < p
      ensures Placed(cs', ns', k, n, j)
    {
      assert Placed(cs, ns, k, n, j);
      LoMono(j + 1, p, k);
      BetweenPrefix(ns, ns', Min(Lo(j, k), n), Min(Lo(j + 1, k), n));
    }
    assert ns'[|ns|..|ns| + |added|] == added;
    assert Placed(cs', ns', k, n, p);
  }

  lemma BetweenPrefix<T>(s: seq<T>, t: seq<T>, a: int, b: int)
    requires b <= |s| <= |t| && t[..|s|] == s
    ensures Between(t, a, b) == Between(s, a, b)
  {
    if 0 <= a <= b {
      forall i | 0 <= i < b - a
        ensures t[a..b][i] == s[a..b][i]
      {
        assert t[a + i] == t[..|s|][a + i];
      }
    }
  }

  /** When every entry has its node, the progress is the complete tree. */
  lemma LayoutDone<K>(ns: seq<Node<K>>, cs: seq<seq<Node<K>>>, k: nat, p: nat)
    requires Linked(ns, cs) && Layout(cs, ns, k, |ns|, p) && |ns| == Min(Lo(p, k), |ns|)
    ensures KAry(ns, k)
  {
    var n := |ns|;
    forall j | 0 <= j < n
      ensures ns[j].children == ns[Min(Lo(j, k), n)..Min(Lo(j + 1, k), n)]
    {
      if p <= j {
        LoMono(p, j, k);
      } else {
        assert Placed(cs, ns, k, n, j);
      }
    }
  }

  /** The `childIndex` loop for one parent: up to `k` further entries, from
      `index` on, become new nodes, appended in order to the parent's
      children. */
  method AttachChildren<K>(parent: Node<K>, k: nat, items: seq<(K, real)>, index: nat, ghost others: seq<Node<K>>)
    returns (added: seq<Node<K>>)
    requires index <= |items|
    modifies parent`children
    ensures |added| == Min(k, |items| - index)
    ensures parent.children == old(parent.children) + added
    ensures forall i :: 0 <= i < |added| ==>
      fresh(added[i]) && added[i].dataset == items[index + i].0 && added[i].value == items[index + i].1 && added[i].children == []
    ensures Distinct(added)
    ensures forall i, j :: 0 <= i < |others| && 0 <= j < |added| ==> others[i] != added[j]
  {
    added := [];
    var c := 0;
    while c < k
      invariant 0 <= c <= k && index + c <= |items| && |added| == c
      invariant parent.children == old(parent.children) + added
      invariant forall i :: 0 <= i < |added| ==>
        fresh(added[i]) && added[i].dataset == items[index + i].0 && added[i].value == items[index + i].1 && added[i].children == []
      invariant Distinct(added)
      invariant forall i, j :: 0 <= i < |others| && 0 <= j < |added| ==> others[i] != added[j]
    {
      if index + c == |items| {
        break;
      }
      var child := new Node(items[index + c].0, items[index + c].1);
      parent.AddChild(child);
      added := added + [child];
      c := c + 1;
    }
  }

  /** The state of `createTree` after `p` parents: the `index` nodes made
      so far, one per entry, with children lists `cs` in the layout of the
      complete tree. */
  ghost predicate Built<K>(ns: seq<Node<K>>, cs: seq<seq<Node<K>>>, items: seq<(K, real)>, k: nat, p: nat, index: nat)
  {
    1 <= index <= |items| && |ns| == index && p <= index &&
    index == Min(Lo(p, k), |items|) &&
    Layout(cs, ns, k, |items|, p) &&
    (forall i :: 0 <= i < index ==> ns[i].dataset == items[i].0 && ns[i].value == items[i].1) &&
    Distinct(ns)
  }

  /** Parent `p` taking the next entries as children, on the lists alone. */
  lemma BuiltStep<K>(ns: seq<Node<K>>, cs: seq<seq<Node<K>>>, added: seq<Node<K>>, ns': seq<Node<K>>, cs': seq<seq<Node<K>>>,
                     items: seq<(K, real)>, k: nat, p: nat, index: nat, index': nat)
    requires Built(ns, cs, items, k, p, index) && p < index
    requires |added| == Min(k, |items| - index)
    requires forall i :: 0 <= i < |added| ==> added[i].dataset == items[index + i].0 && added[i].value == items[index + i].1
    requires Distinct(added) && forall i, j :: 0 <= i < |ns| && 0 <= j < |added| ==> ns[i] != added[j]
    requires ns' == ns + added && cs' == Grow(cs, p, added) && index' == index + |added|
    ensures Built(ns', cs', items, k, p + 1, index')
  {
    LayoutStep(cs, cs', ns, added, k, |items|, p);
    DistinctAppend(ns, added);
    forall i | 0 <= i < |ns'|
      ensures ns'[i].dataset == items[i].0 && ns'[i].value == items[i].1
    {
      if i >= |ns| {
        assert ns'[i] == added[i - index];
      }
    }
  }

  /** The children lists after parent `p` receives `added`: those are its
      children, and each of them has none. */
  function Grow<K>(cs: seq<seq<Node<K>>>, p: nat, added: seq<Node<K>>): (cs': seq<seq<Node<K>>>)
    requires p < |cs|
    ensures |cs'| == |cs| + |added| && cs'[p] == added
    ensures forall j :: 0 <= j < |cs| && j != p ==> cs'[j] == cs[j]
    ensures forall j :: |cs| <= j < |cs'| ==> cs'[j] == []
  {
    cs[p := added] + seq(|added|, _ => [])
  }

  /** One pass of the `parentIndex` loop: the parent taken from the head
      of the queue receives the next entries as children. */
  method ParentStep<K>(parent: Node<K>, k: nat, items: seq<(K, real)>, ghost ns: seq<Node<K>>, ghost cs: seq<seq<Node<K>>>,
                       ghost p: nat, index: nat)
    returns (ghost ns': seq<Node<K>>, ghost cs': seq<seq<Node<K>>>, added: seq<Node<K>>, index': nat)
    requires Built(ns, cs, items, k, p, index) && Linked(ns, cs)
    requires p < index && parent == ns[p]
    modifies parent`children
    ensures Built(ns', cs', items, k, p + 1, index') && Linked(ns', cs')
    ensures ns' == ns + added && index' == index + |added|
    ensures forall i :: 0 <= i < |added| ==> fresh(added[i])
  {
    assert cs[p] == [];
    added := AttachChildren(parent, k, items, index, ns);
    ns' := ns + added;
    cs' := Grow(cs, p, added);
    index' := index + |added|;
    BuiltStep(ns, cs, added, ns', cs', items, k, p, index, index');
    forall i | 0 <= i < |ns'|
      ensures ns'[i].children == cs'[i]
    {
      if i < |ns| {
        assert ns'[i] == ns[i];
        if i != p {
          assert ns[i] != parent;
        }
      } else {
        assert ns'[i] == added[i - |ns|];
      }
    }
  }

  lemma ExtendsAt<T>(a: seq<T>, b: seq<T>, i: nat)
    requires |a| <= |b| && b[..|a|] == a && i < |a|
    ensures b[i] == a[i]
  {
    assert b[..|a|][i] == b[i];
  }

  lemma ExtendsTrans<T>(a: seq<T>, b: seq<T>, c: seq<T>)
    requires |a| <= |b| && b[..|a|] == a
    requires |b| <= |c| && c[..|b|] == b
    ensures |a| <= |c| && c[..|a|] == a
  {
    assert c[..|a|] == c[..|b|][..|a|];
  }

  lemma AppendSlices<T>(a: seq<T>, b: seq<T>, i: nat)
    requires i < |a|
    ensures (a + b)[..|a|] == a
    ensures (a + b)[i + 1..|a| + |b|] == a[i..|a|][1..] + b
  {
  }

  /** The queue after a parent leaves it and its children join it. */
  lemma QueueNext<K>(ns: seq<Node<K>>, added: seq<Node<K>>, rest: seq<Node<K>>, p: nat, index: nat)
    requires p < index == |ns| && rest == ns[p..index][1..]
    ensures rest + added == (ns + added)[p + 1..index + |added|]
    ensures (ns + added)[..|ns|] == ns
  {
    AppendSlices(ns, added, p);
  }

  /** One pass of the `while` loop: every parent in the queue, in order,
      takes its children. */
  method Level<K>(k: nat, items: seq<(K, real)>, ghost ns: seq<Node<K>>, ghost cs: seq<seq<Node<K>>>, ghost p: nat,
                  queue: seq<Node<K>>, index: nat)
    returns (ghost ns': seq<Node<K>>, ghost cs': seq<seq<Node<K>>>, queue': seq<Node<K>>, index': nat, ghost p': nat)
    requires Built(ns, cs, items, k, p, index) && Linked(ns, cs) && queue == ns[p..index] && p < index
    modifies set i | p <= i < index :: ns[i]
    ensures Built(ns', cs', items, k, p', index') && Linked(ns', cs') && queue' == ns'[p'..index'] && p < p'
    ensures |ns| <= |ns'| && ns'[..|ns|] == ns
    ensures forall x :: x in ns' ==> x in ns || fresh(x)
  {
    ns', cs', queue', index', p' := ns, cs, queue, index, p;
    var size := |queue|;
    for t := 0 to size
      invariant Built(ns', cs', items, k, p', index') && Linked(ns', cs') && queue' == ns'[p'..index']
      invariant p' == p + t && index' - p' >= size - t
      invariant |ns| <= |ns'| && ns'[..|ns|] == ns
      invariant forall x :: x in ns' ==> x in ns || fresh(x)
    {
      var parent := queue'[0];
      var rest := queue'[1..];
      ghost var ns0, index0 := ns', index';
      ExtendsAt(ns, ns0, p');
      var added;
      ns', cs', added, index' := ParentStep(parent, k, items, ns', cs', p', index');
      QueueNext(ns0, added, rest, p', index0);
      queue' := rest + added;
      ExtendsTrans(ns, ns0, ns');
      p' := p' + 1;
    }
  }

  /** `createTree(numOfChildren, dateValues)`, with the table given as its
      entries in key order. `None` stands for the `IndexError` of an empty
      table. The first entry becomes the root; the others are attached in
      order, level by level, `numOfChildren` to a parent: the result is the
      complete tree of that degree in breadth-first order. With
      `numOfChildren == 0` and more than one entry the loop never ends, so
      that case is excluded. */
  method CreateTree<K>(k: nat, items: seq<(K, real)>) returns (root: Option<Node<K>>, ghost ns: seq<Node<K>>)
    requires k >= 1 || |items| <= 1
    ensures root.None? <==> items == []
    ensures |ns| == |items|
    ensures forall i :: 0 <= i < |ns| ==> fresh(ns[i]) && ns[i].dataset == items[i].0 && ns[i].value == items[i].1
    ensures Distinct(ns)
    ensures root.Some? ==> ns[0] == root.value && KAry(ns, k) && BfsOrder(root.value, ns)
  {
    if |items| == 0 {
      return None, [];
    }
    var n := |items|;
    var r := new Node(items[0].0, items[0].1);
    ns := [r];
    ghost var cs: seq<seq<Node<K>>> := [[]];
    var queue := [r];
    ghost var p: nat := 0;
    var index := 1;
    while index < n
      invariant Built(ns, cs, items, k, p, index) && Linked(ns, cs) && ns[0] == r && queue == ns[p..index]
      invariant forall x :: x in ns ==> fresh(x)
      decreases n - p
    {
      LoAbove(p, k);
      ghost var ns0 := ns;
      forall i | 0 <= i < |ns|
        ensures fresh(ns[i])
      {
        assert ns[i] in ns;
      }
      ns, cs, queue, index, p := Level(k, items, ns, cs, p, queue, index);
      assert ns[0] == ns[..|ns0|][0];
    }
    forall i | 0 <= i < |ns|
      ensures fresh(ns[i])
    {
      assert ns[i] in ns;
    }
    LayoutDone(ns, cs, k, p);
    KAryBfs(ns, k);
    root := Some(r);
  }
}
