/** peak.util.Graph: a binary relation stored as a map from each key to the
    list of values paired with it.  Its algebra (inverse, composition,
    restriction, difference, union) is specified on the relation as a set of
    pairs; the class methods are proved to compute those set operations. */
module Graph {
  import opened Base

  /** The relation algebra on sets of pairs. */
  ghost function Inverse<T>(r: set<(T, T)>): set<(T, T)>
  {
    set p | p in r :: (p.1, p.0)
  }

  ghost function Compose<T>(r: set<(T, T)>, s: set<(T, T)>): set<(T, T)>
  {
    set p, q | p in r && q in s && p.1 == q.0 :: (p.0, q.1)
  }

  ghost function Identity<T>(keys: set<T>): set<(T, T)>
  {
    set k | k in keys :: (k, k)
  }

  ghost function RestrictTo<T>(r: set<(T, T)>, keys: set<T>): set<(T, T)>
  {
    set p | p in r && p.0 in keys
  }

  ghost function Domain<T>(r: set<(T, T)>): set<T>
  {
    set p | p in r :: p.0
  }

  lemma InverseMembership<T>(r: set<(T, T)>, k: T, v: T)
    ensures (k, v) in Inverse(r) <==> (v, k) in r
  {
    if (k, v) in Inverse(r) {
      var p :| p in r && (p.1, p.0) == (k, v);
    }
  }

  /** `~~g == g`. */
  lemma InverseInvolution<T>(r: set<(T, T)>)
    ensures Inverse(Inverse(r)) == r
  {
    forall p | p in r ensures p in Inverse(Inverse(r)) {
      InverseMembership(r, p.1, p.0);
      InverseMembership(Inverse(r), p.0, p.1);
    }
    forall p | p in Inverse(Inverse(r)) ensures p in r {
      InverseMembership(Inverse(r), p.0, p.1);
      InverseMembership(r, p.1, p.0);
    }
  }

  /** `(k, w) in g * h` iff some `v` has `(k, v) in g` and `(v, w) in h`. */
  lemma ComposeMembership<T>(r: set<(T, T)>, s: set<(T, T)>, k: T, w: T)
    ensures (k, w) in Compose(r, s) <==> exists v :: (k, v) in r && (v, w) in s
  {
    if (k, w) in Compose(r, s) {
      var p, q :| p in r && q in s && p.1 == q.0 && (p.0, q.1) == (k, w);
      assert (k, p.1) in r && (p.1, w) in s;
    }
    if exists v :: (k, v) in r && (v, w) in s {
      var v :| (k, v) in r && (v, w) in s;
      assert (k, w) == ((k, v).0, (v, w).1);
    }
  }

  /** The inverse of a composition is the composition of the inverses, in
      the opposite order. */
  lemma InverseOfCompose<T>(r: set<(T, T)>, s: set<(T, T)>)
    ensures Inverse(Compose(r, s)) == Compose(Inverse(s), Inverse(r))
  {
    forall p | p in Inverse(Compose(r, s)) ensures p in Compose(Inverse(s), Inverse(r)) {
      InverseMembership(Compose(r, s), p.0, p.1);
      ComposeMembership(r, s, p.1, p.0);
      var v :| (p.1, v) in r && (v, p.0) in s;
      InverseMembership(s, p.0, v);
      InverseMembership(r, v, p.1);
      ComposeMembership(Inverse(s), Inverse(r), p.0, p.1);
    }
    forall p | p in Compose(Inverse(s), Inverse(r)) ensures p in Inverse(Compose(r, s)) {
      ComposeMembership(Inverse(s), Inverse(r), p.0, p.1);
      var v :| (p.0, v) in Inverse(s) && (v, p.1) in Inverse(r);
      InverseMembership(s, p.0, v);
      InverseMembership(r, v, p.1);
      ComposeMembership(r, s, p.1, p.0);
      InverseMembership(Compose(r, s), p.0, p.1);
    }
  }

  /** `g.restrict(h)` is `Graph.fromkeys(h.keys()) * g`. */
  lemma RestrictIsIdentityCompose<T>(r: set<(T, T)>, keys: set<T>)
    ensures RestrictTo(r, keys) == Compose(Identity(keys), r)
  {
    forall p | p in RestrictTo(r, keys) ensures p in Compose(Identity(keys), r) {
      assert (p.0, p.0) in Identity(keys);
      ComposeMembership(Identity(keys), r, p.0, p.1);
    }
    forall p | p in Compose(Identity(keys), r) ensures p in RestrictTo(r, keys) {
      ComposeMembership(Identity(keys), r, p.0, p.1);
      var v :| (p.0, v) in Identity(keys) && (v, p.1) in r;
    }
  }

  /** `Graph.fromkeys(g.keys()) * g == g`. */
  lemma IdentityIsLeftUnit<T>(r: set<(T, T)>)
    ensures Compose(Identity(Domain(r)), r) == r
  {
    RestrictIsIdentityCompose(r, Domain(r));
    forall p | p in r ensures p in RestrictTo(r, Domain(r)) {
      assert p.0 in Domain(r);
    }
  }

  /** A path `w` of one or more nodes, each an edge away from the previous. */
  ghost predicate IsWalk<T>(kvl: map<T, seq<T>>, from: T, to: T, w: seq<T>)
  {
    |w| >= 1 && w[0] == from && w[|w| - 1] == to
    && forall i :: 0 <= i < |w| - 1 ==> w[i] in kvl && w[i + 1] in kvl[w[i]]
  }

  ghost predicate Reaches<T(!new)>(kvl: map<T, seq<T>>, from: T, to: T)
  {
    exists w :: IsWalk(kvl, from, to, w)
  }

  lemma ReachesStep<T(!new)>(kvl: map<T, seq<T>>, from: T, x: T, y: T)
    requires Reaches(kvl, from, x) && x in kvl && y in kvl[x]
    ensures Reaches(kvl, from, y)
  {
    var w :| IsWalk(kvl, from, x, w);
    assert IsWalk(kvl, from, y, w + [y]);
  }

  /** Every node on a walk from a node of a closed set stays in that set. */
  lemma {:induction false} ClosedContainsWalk<T>(kvl: map<T, seq<T>>, c: set<T>, from: T, to: T, w: seq<T>)
    requires from in c && IsWalk(kvl, from, to, w)
    requires forall x, y :: x in c && x in kvl && y in kvl[x] ==> y in c
    ensures to in c
    decreases |w|
  {
    if |w| > 1 {
      var w' := w[..|w| - 1];
      assert IsWalk(kvl, from, w'[|w'| - 1], w');
      ClosedContainsWalk(kvl, c, from, w'[|w'| - 1], w');
    }
  }

  /** All nodes that occur in the table. */
  function Nodes<T>(kvl: map<T, seq<T>>): set<T>
  {
    kvl.Keys + (set k, v | k in kvl && v in kvl[k] :: v)
  }

  lemma {:induction false} DistinctPairsCard<T>(k: T, s: seq<T>)
    requires Distinct(s)
    ensures |set v | v in s :: (k, v)| == |s|
  {
    if s != [] {
      var tail := set v | v in s[1..] :: (k, v);
      assert Distinct(s[1..]);
      DistinctPairsCard(k, s[1..]);
      assert (set v | v in s :: (k, v)) == {(k, s[0])} + tail;
      assert (k, s[0]) !in tail;
    }
  }

  /** Adding one more key adds exactly its own pairs, one per value. */
  lemma PairsUnderGrow<T>(kvl: map<T, seq<T>>, done: set<T>, k: T)
    requires k in kvl && k !in done && Distinct(kvl[k])
    ensures |PairsUnder(kvl, done + {k})| == |PairsUnder(kvl, done)| + |kvl[k]|
  {
    var mine := set v | v in kvl[k] :: (k, v);
    DistinctPairsCard(k, kvl[k]);
    assert PairsUnder(kvl, done + {k}) == PairsUnder(kvl, done) + mine;
    assert PairsUnder(kvl, done) !! mine;
  }

  /** A list without repetitions has as many elements as its set. */
  lemma {:induction false} DistinctCard<T>(s: seq<T>)
    requires Distinct(s)
    ensures |set x | x in s| == |s|
  {
    if s != [] {
      var t := s[..|s| - 1];
      assert Distinct(t);
      DistinctCard(t);
      assert (set x | x in s) == (set x | x in t) + {s[|s| - 1]};
    }
  }

  /** The pairs held under the keys in `keys`. */
  ghost function PairsUnder<T>(kvl: map<T, seq<T>>, keys: set<T>): set<(T, T)>
  {
    set k, v | k in keys && k in kvl && v in kvl[k] :: (k, v)
  }

  class Graph<T(==,!new)> {
    var kvl: map<T, seq<T>>

    /** Every key's list is non-empty and holds each value once. */
    ghost predicate Valid()
      reads this
    {
      forall k :: k in kvl ==> |kvl[k]| > 0 && Distinct(kvl[k])
    }

    /** The relation the graph stands for. */
    ghost function Pairs(): set<(T, T)>
      reads this
    {
      set k, v | k in kvl && v in kvl[k] :: (k, v)
    }

    /** `Graph(iterable)`: the relation of the given pairs. */
    constructor (iterable: seq<(T, T)>)
      ensures Valid()
      ensures Pairs() == set p | p in iterable
    {
      kvl := map[];
      new;
      var i := 0;
      while i < |iterable|
        invariant 0 <= i <= |iterable|
        invariant Valid()
        invariant Pairs() == set p | p in iterable[..i]
      {
        Add(iterable[i].0, iterable[i].1);
        assert iterable[..i + 1] == iterable[..i] + [iterable[i]];
        i := i + 1;
      }
    }

    /** `g[key] = val` (also `g.add`): appends `val` unless already there. */
    method Add(key: T, val: T)
      requires Valid()
      modifies this
      ensures Valid()
      ensures Pairs() == old(Pairs()) + {(key, val)}
      ensures key in old(kvl) && val in old(kvl[key]) ==> kvl == old(kvl)
    {
      var vl := if key in kvl then kvl[key] else [];
      if val !in vl {
        kvl := kvl[key := vl + [val]];
      }
      assert Pairs() == old(Pairs()) + {(key, val)} by {
        forall p | p in Pairs() ensures p in old(Pairs()) + {(key, val)} {
          assert p.0 in kvl && p.1 in kvl[p.0];
        }
        forall p | p in old(Pairs()) ensures p in Pairs() {
          assert p.0 in old(kvl) && p.1 in old(kvl)[p.0];
          assert p.0 in kvl && p.1 in kvl[p.0];
        }
        assert key in kvl && val in kvl[key];
      }
    }

    /** `(key, val) in g`. */
    function Contains(key: T, val: T): (b: bool)
      reads this
      ensures b <==> (key, val) in Pairs()
    {
      key in kvl && val in kvl[key]
    }

    /** `g.neighbors(key)`: the values paired with `key`, or [] if none. */
    function Neighbors(key: T): (vs: seq<T>)
      reads this
      ensures forall v :: v in vs <==> (key, v) in Pairs()
    {
      if key in kvl then kvl[key] else []
    }

    /** `g[key]`: the first value added under `key`; KeyError if none. */
    function First(key: T): (r: Option<T>)
      reads this
      requires Valid()
      ensures r.Some? <==> key in Domain(Pairs())
      ensures r.Some? ==> (key, r.value) in Pairs()
    {
      if key in kvl then
        assert (key, kvl[key][0]) in Pairs();
        Some(kvl[key][0])
      else
        None
    }

    /** `g.keys()`. */
    function Keys(): (ks: set<T>)
      reads this
      requires Valid()
      ensures ks == Domain(Pairs())
    {
      assert forall k :: k in kvl ==> (k, kvl[k][0]) in Pairs();
      kvl.Keys
    }

    /** `list(g)` / `g.items()`: every pair once. */
    method Items() returns (ps: seq<(T, T)>)
      requires Valid()
      ensures Distinct(ps)
      ensures forall p :: p in ps <==> p in Pairs()
    {
      var rest := kvl.Keys;
      ps := [];
      ghost var done: set<T> := {};
      while rest != {}
        invariant rest + done == kvl.Keys && rest !! done
        invariant Distinct(ps)
        invariant forall p :: p in ps <==> p.0 in done && p.0 in kvl && p.1 in kvl[p.0]
        decreases |rest|
      {
        var k :| k in rest;
        var vl := kvl[k];
        var j := 0;
        while j < |vl|
          invariant 0 <= j <= |vl|
          invariant Distinct(ps)
          invariant forall p :: p in ps <==>
                      (p.0 in done && p.0 in kvl && p.1 in kvl[p.0]) || (p.0 == k && p.1 in vl[..j])
        {
          assert vl[..j + 1] == vl[..j] + [vl[j]];
          ps := ps + [(k, vl[j])];
          j := j + 1;
        }
        assert vl[..j] == vl;
        rest, done := rest - {k}, done + {k};
      }
      forall p | p in Pairs() ensures p in ps {
        assert p.0 in kvl && p.1 in kvl[p.0];
      }
    }

    /** `g.values()`: the values of every key's list, one after another;
        a value paired with several keys appears once for each. */
    method Values() returns (vs: seq<T>)
      requires Valid()
      ensures |vs| == |Pairs()|
      ensures forall v :: v in vs <==> exists k :: (k, v) in Pairs()
    {
      var ps := Items();
      vs := seq(|ps|, i requires 0 <= i < |ps| => ps[i].1);
      forall v | exists k :: (k, v) in Pairs()
        ensures v in vs
      {
        var k :| (k, v) in Pairs();
        var i :| 0 <= i < |ps| && ps[i] == (k, v);
        assert vs[i] == v;
      }
      DistinctCard(ps);
      assert (set p | p in ps) == Pairs();
    }

    /** `len(g)`: the number of distinct pairs. */
    method Len() returns (n: nat)
      requires Valid()
      ensures n == |Pairs()|
    {
      var rest := kvl.Keys;
      n := 0;
      ghost var done: set<T> := {};
      while rest != {}
        invariant rest + done == kvl.Keys && rest !! done
        invariant n == |PairsUnder(kvl, done)|
        decreases |rest|
      {
        var k :| k in rest;
        PairsUnderGrow(kvl, done, k);
        n := n + |kvl[k]|;
        rest, done := rest - {k}, done + {k};
      }
      assert PairsUnder(kvl, done) == Pairs();
    }

    /** `~g`. */
    method Invert() returns (g: Graph<T>)
      requires Valid()
      ensures fresh(g) && g.Valid()
      ensures g.Pairs() == Inverse(Pairs())
    {
      var ps := Items();
      var swapped := seq(|ps|, i requires 0 <= i < |ps| => (ps[i].1, ps[i].0));
      g := new Graph(swapped);
      forall p | p in Inverse(Pairs()) ensures p in g.Pairs() {
        InverseMembership(Pairs(), p.0, p.1);
        var i :| 0 <= i < |ps| && ps[i] == (p.1, p.0);
        assert swapped[i] == p;
      }
      forall p | p in g.Pairs() ensures p in Inverse(Pairs()) {
        var i :| 0 <= i < |swapped| && swapped[i] == p;
        InverseMembership(Pairs(), p.0, p.1);
      }
    }

    /** `g * h`: relational composition. */
    method Mul(other: Graph<T>) returns (g: Graph<T>)
      requires Valid() && other.Valid()
      ensures fresh(g) && g.Valid()
      ensures g.Pairs() == Compose(Pairs(), other.Pairs())
    {
      var ps := Items();
      var out: seq<(T, T)> := [];
      var i := 0;
      while i < |ps|
        invariant 0 <= i <= |ps|
        invariant forall p :: p in out <==>
                    (exists j :: 0 <= j < i && ps[j].0 == p.0 && (ps[j].1, p.1) in other.Pairs())
      {
        var k, v := ps[i].0, ps[i].1;
        var nv := other.Neighbors(v);
        var added := seq(|nv|, m requires 0 <= m < |nv| => (k, nv[m]));
        forall p | p in out + added
          ensures exists j :: 0 <= j < i + 1 && ps[j].0 == p.0 && (ps[j].1, p.1) in other.Pairs()
        {
          if p in added {
            var m :| 0 <= m < |nv| && added[m] == p;
            assert ps[i].0 == p.0 && (ps[i].1, p.1) in other.Pairs();
          } else {
            var j :| 0 <= j < i && ps[j].0 == p.0 && (ps[j].1, p.1) in other.Pairs();
          }
        }
        forall p: (T, T) | exists j :: 0 <= j < i + 1 && ps[j].0 == p.0 && (ps[j].1, p.1) in other.Pairs()
          ensures p in out + added
        {
          var j :| 0 <= j < i + 1 && ps[j].0 == p.0 && (ps[j].1, p.1) in other.Pairs();
          if j == i {
            assert p.1 in nv;
            var m :| 0 <= m < |nv| && nv[m] == p.1;
            assert added[m] == p;
          }
        }
        out := out + added;
        i := i + 1;
      }
      g := new Graph(out);
      forall p | p in Compose(Pairs(), other.Pairs()) ensures p in g.Pairs() {
        ComposeMembership(Pairs(), other.Pairs(), p.0, p.1);
        var v :| (p.0, v) in Pairs() && (v, p.1) in other.Pairs();
        var j :| 0 <= j < |ps| && ps[j] == (p.0, v);
        assert p in out;
      }
      forall p | p in g.Pairs() ensures p in Compose(Pairs(), other.Pairs()) {
        var j :| 0 <= j < |ps| && ps[j].0 == p.0 && (ps[j].1, p.1) in other.Pairs();
        assert (p.0, ps[j].1) in Pairs();
        ComposeMembership(Pairs(), other.Pairs(), p.0, p.1);
      }
    }

    /** `g.restrict(h)`: the pairs of `g` whose key is a key of `h`. */
    method Restrict(other: Graph<T>) returns (g: Graph<T>)
      requires Valid()
      ensures fresh(g) && g.Valid()
      ensures g.Pairs() == RestrictTo(Pairs(), other.kvl.Keys)
    {
      var ps := Items();
      var out: seq<(T, T)> := [];
      var i := 0;
      while i < |ps|
        invariant 0 <= i <= |ps|
        invariant forall p :: p in out <==> p in ps[..i] && p.0 in other.kvl
      {
        assert ps[..i + 1] == ps[..i] + [ps[i]];
        if ps[i].0 in other.kvl {
          out := out + [ps[i]];
        }
        i := i + 1;
      }
      assert ps[..i] == ps;
      g := new Graph(out);
    }

    /** `g - h`: the pairs of `g` that are not in `h`. */
    method Sub(other: Graph<T>) returns (g: Graph<T>)
      requires Valid()
      ensures fresh(g) && g.Valid()
      ensures g.Pairs() == Pairs() - other.Pairs()
    {
      var ps := Items();
      var out: seq<(T, T)> := [];
      var i := 0;
      while i < |ps|
        invariant 0 <= i <= |ps|
        invariant forall p :: p in out <==> p in ps[..i] && p !in other.Pairs()
      {
        assert ps[..i + 1] == ps[..i] + [ps[i]];
        if !other.Contains(ps[i].0, ps[i].1) {
          out := out + [ps[i]];
        }
        i := i + 1;
      }
      assert ps[..i] == ps;
      g := new Graph(out);
    }

    /** `g + h` and `g | h`: the union of the two relations. */
    method Union(other: Graph<T>) returns (g: Graph<T>)
      requires Valid() && other.Valid()
      ensures fresh(g) && g.Valid()
      ensures g.Pairs() == Pairs() + other.Pairs()
    {
      var ps := Items();
      var qs := other.Items();
      g := new Graph(ps + qs);
    }

    /** `g += h` and `g |= h`: adds every pair of `h` to `g`. */
    method AddAll(other: Graph<T>)
      requires Valid() && other.Valid()
      modifies this
      ensures Valid()
      ensures Pairs() == old(Pairs()) + old(other.Pairs())
    {
      var qs := other.Items();
      var i := 0;
      while i < |qs|
        invariant 0 <= i <= |qs|
        invariant Valid()
        invariant Pairs() == old(Pairs()) + set p | p in qs[..i]
      {
        assert qs[..i + 1] == qs[..i] + [qs[i]];
        Add(qs[i].0, qs[i].1);
        i := i + 1;
      }
      assert qs[..i] == qs;
    }

    /** `g == h` (and the negation `g != h`): equality of the pair sets. */
    method Equals(other: Graph<T>) returns (b: bool)
      requires Valid() && other.Valid()
      ensures b <==> Pairs() == other.Pairs()
    {
      var ps := Items();
      var qs := other.Items();
      var s1 := set i | 0 <= i < |ps| :: ps[i];
      var s2 := set i | 0 <= i < |qs| :: qs[i];
      assert s1 == Pairs() by {
        forall p | p in Pairs() ensures p in s1 {
          var i :| 0 <= i < |ps| && ps[i] == p;
        }
      }
      assert s2 == other.Pairs() by {
        forall p | p in other.Pairs() ensures p in s2 {
          var i :| 0 <= i < |qs| && qs[i] == p;
        }
      }
      b := s1 == s2;
    }

    /** `g.reachable(key)`: every node reachable from `key` along edges,
        except `key` itself. */
    method Reachable(key: T) returns (found: set<T>)
      ensures forall y :: y in found <==> y != key && Reaches(kvl, key, y)
    {
      ghost var reach := ReachSet(kvl, key);
      var stack := [key];
      found := {};
      while stack != []
        invariant SearchInv(kvl, reach, key, found, stack)
        decreases |reach - found|, |stack|
      {
        var k := stack[|stack| - 1];
        if k !in found {
          var next := if k in kvl then kvl[k] else [];
          VisitKeepsInv(kvl, reach, key, found, stack);
          stack := stack[..|stack| - 1] + next;
          found := found + {k};
        } else {
          SkipKeepsInv(kvl, reach, key, found, stack);
          stack := stack[..|stack| - 1];
        }
      }
      SearchDone(kvl, reach, key, found);
      found := found - {key};
    }
  }

  /** The nodes reachable from `key`, `key` included. */
  ghost function ReachSet<T(!new)>(kvl: map<T, seq<T>>, key: T): (r: set<T>)
    ensures key in r
    ensures forall y :: y in r <==> y == key || Reaches(kvl, key, y)
    ensures forall x, y :: x in r && x in kvl && y in kvl[x] ==> y in r
  {
    assert IsWalk(kvl, key, key, [key]);
    var r := set y | y in Nodes(kvl) + {key} && Reaches(kvl, key, y);
    forall y | Reaches(kvl, key, y) ensures y in r {
      var w :| IsWalk(kvl, key, y, w);
      if |w| > 1 {
        assert w[|w| - 2] in kvl && y in kvl[w[|w| - 2]];
      }
    }
    forall x, y | x in r && x in kvl && y in kvl[x] ensures y in r {
      ReachesStep(kvl, key, x, y);
    }
    r
  }

  /** The invariant of the depth-first search in `reachable`: everything
      seen is reachable, and every edge out of a visited node leads to a
      visited node or to one still on the stack. */
  ghost predicate SearchInv<T>(kvl: map<T, seq<T>>, reach: set<T>, key: T, found: set<T>, stack: seq<T>)
  {
    && found <= reach && (forall z :: z in stack ==> z in reach)
    && (key in found || key in stack)
    && (forall x, y :: x in found && x in kvl && y in kvl[x] ==> y in found || y in stack)
  }

  /** When the stack is empty, the visited nodes are exactly the reachable
      ones. */
  lemma SearchDone<T(!new)>(kvl: map<T, seq<T>>, reach: set<T>, key: T, found: set<T>)
    requires reach == ReachSet(kvl, key)
    requires SearchInv(kvl, reach, key, found, [])
    ensures found == reach
  {
    forall y | y in reach ensures y in found {
      if y != key {
        var w :| IsWalk(kvl, key, y, w);
        ClosedContainsWalk(kvl, found, key, y, w);
      }
    }
  }

  /** Visiting one more node leaves fewer to visit. */
  lemma RemoveShrinks<T>(reach: set<T>, found: set<T>, k: T)
    requires k in reach && k !in found
    ensures |reach - (found + {k})| < |reach - found|
  {
    var smaller := reach - (found + {k});
    assert reach - found == smaller + {k} && k !in smaller;
  }

  /** The members of a non-empty stack are its top and the rest. */
  lemma PopMembers<T>(s: seq<T>)
    requires s != []
    ensures forall z :: z in s <==> z in s[..|s| - 1] || z == s[|s| - 1]
  {
    assert s == s[..|s| - 1] + [s[|s| - 1]];
  }

  /** Popping a node not yet visited: visit it and push its neighbours. */
  lemma VisitKeepsInv<T>(kvl: map<T, seq<T>>, reach: set<T>, key: T, found: set<T>, stack: seq<T>)
    requires forall x, y :: x in reach && x in kvl && y in kvl[x] ==> y in reach
    requires SearchInv(kvl, reach, key, found, stack) && stack != [] && stack[|stack| - 1] !in found
    ensures var k := stack[|stack| - 1];
      SearchInv(kvl, reach, key, found + {k}, stack[..|stack| - 1] + (if k in kvl then kvl[k] else []))
    ensures |reach - (found + {stack[|stack| - 1]})| < |reach - found|
  {
    var k := stack[|stack| - 1];
    var next := if k in kvl then kvl[k] else [];
    PopMembers(stack);
    assert forall z :: z in stack[..|stack| - 1] + next <==> z in stack[..|stack| - 1] || z in next;
    RemoveShrinks(reach, found, k);
  }

  /** Popping a node already visited. */
  lemma SkipKeepsInv<T>(kvl: map<T, seq<T>>, reach: set<T>, key: T, found: set<T>, stack: seq<T>)
    requires SearchInv(kvl, reach, key, found, stack) && stack != [] && stack[|stack| - 1] in found
    ensures SearchInv(kvl, reach, key, found, stack[..|stack| - 1])
  {
    PopMembers(stack);
  }

  /** `Graph.fromkeys(keys)`: the identity relation on `keys`. */
  method FromKeys<T(==,!new)>(keys: seq<T>) returns (g: Graph<T>)
    ensures fresh(g) && g.Valid()
    ensures g.Pairs() == Identity(set k | k in keys)
  {
    var ps := seq(|keys|, i requires 0 <= i < |keys| => (keys[i], keys[i]));
    g := new Graph(ps);
    ghost var ks := set k | k in keys;
    ghost var qs := set q | q in ps;
    forall p | p in Identity(ks) ensures p in qs {
      var i :| 0 <= i < |keys| && keys[i] == p.0;
      assert ps[i] == p;
    }
  }
}
