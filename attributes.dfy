/** Keyword initialisation of PEAK components (`peak/binding/attributes.py`,
    `initAttrs`): each name/value pair is set on the object when the
    object's class has an attribute of that name; the first name it lacks
    raises `TypeError`. */
module Attributes {
  import opened Base

  /** The attributes after setting the pairs of `items` in order: a later
      pair for the same name overwrites an earlier one. */
  function Apply<V>(m: map<string, V>, items: seq<(string, V)>): map<string, V>
  {
    if items == [] then m
    else
      var last := items[|items| - 1];
      Apply(m, items[..|items| - 1])[last.0 := last.1]
  }

  /** The index of the last pair that sets `k`. */
  predicate LastSet<V>(items: seq<(string, V)>, k: string, i: int)
  {
    0 <= i < |items| && items[i].0 == k && forall j :: i < j < |items| ==> items[j].0 != k
  }

  /** A name ends up set exactly when it was there before or some pair sets
      it, and a name a pair sets holds the value of the last such pair. */
  lemma {:induction false} ApplyLastWins<V>(m: map<string, V>, items: seq<(string, V)>, k: string)
    ensures k in Apply(m, items) <==> k in m || exists i :: 0 <= i < |items| && items[i].0 == k
    ensures (forall i :: 0 <= i < |items| ==> items[i].0 != k) && k in m ==> Apply(m, items)[k] == m[k]
    ensures forall i :: LastSet(items, k, i) ==> Apply(m, items)[k] == items[i].1
  {
    if items != [] {
      var n := |items| - 1;
      var front := items[..n];
      ApplyLastWins(m, front, k);
      assert forall i :: 0 <= i < n ==> front[i] == items[i];
      forall i | LastSet(items, k, i)
        ensures Apply(m, items)[k] == items[i].1
      {
        if i < n {
          assert LastSet(front, k, i);
        }
      }
    }
  }

  /** Setting pairs only ever touches names that the pairs give. */
  lemma {:induction false} ApplyKeys<V>(m: map<string, V>, items: seq<(string, V)>, known: set<string>)
    requires forall i :: 0 <= i < |items| ==> items[i].0 in known
    ensures m.Keys <= Apply(m, items).Keys <= m.Keys + known
    ensures forall k :: k in m && k !in known ==> Apply(m, items)[k] == m[k]
  {
    if items != [] {
      ApplyKeys(m, items[..|items| - 1], known);
    }
  }

  /** `i` is the first pair whose name the class lacks. */
  predicate FirstUnknown<V>(items: seq<(string, V)>, known: set<string>, i: int)
  {
    0 <= i < |items| && items[i].0 !in known && forall j :: 0 <= j < i ==> items[j].0 in known
  }

  /** `TypeError("<class> constructor has no keyword argument <name>")`. */
  datatype InitError = NoKeyword(className: string, name: string)

  /** An object: its class's name and attribute names, and the attributes
      set on the object itself. */
  class Instance<V> {
    const className: string
    const classAttrs: set<string>
    var attrs: map<string, V>

    constructor (className: string, classAttrs: set<string>)
      ensures this.className == className && this.classAttrs == classAttrs && attrs == map[]
    {
      this.className := className;
      this.classAttrs := classAttrs;
      attrs := map[];
    }

    /** `initAttrs(self, items)`. On success every pair is applied; on the
        first unknown name the error names it, and the pairs before it stay
        applied. */
    method InitAttrs(items: seq<(string, V)>) returns (r: Option<InitError>)
      modifies this`attrs
      ensures r == None <==> forall i :: 0 <= i < |items| ==> items[i].0 in classAttrs
      ensures r == None ==> attrs == Apply(old(attrs), items)
      ensures r != None ==> exists i ::
        FirstUnknown(items, classAttrs, i) && r == Some(NoKeyword(className, items[i].0)) &&
        attrs == Apply(old(attrs), items[..i])
      ensures old(attrs).Keys <= attrs.Keys <= old(attrs).Keys + classAttrs
    {
      var i := 0;
      while i < |items|
        invariant 0 <= i <= |items|
        invariant forall j :: 0 <= j < i ==> items[j].0 in classAttrs
        invariant attrs == Apply(old(attrs), items[..i])
      {
        var (k, v) := items[i];
        if k !in classAttrs {
          assert FirstUnknown(items, classAttrs, i);
          ApplyKeys(old(attrs), items[..i], classAttrs);
          return Some(NoKeyword(className, k));
        }
        assert items[..i + 1][..i] == items[..i];
        attrs := attrs[k := v];
        i := i + 1;
      }
      assert items[..i] == items;
      ApplyKeys(old(attrs), items, classAttrs);
      return None;
    }
  }

  lemma ApplyExample()
    ensures Apply(map[], [("a", 1), ("b", 2), ("a", 3)]) == map["a" := 3, "b" := 2]
  {
    var items := [("a", 1), ("b", 2), ("a", 3)];
    assert items[..2] == [("a", 1), ("b", 2)];
    assert items[..2][..1] == [("a", 1)];
    assert [("a", 1)][..0] == [];
    assert Apply(map[], items[..2]) == map["a" := 1, "b" := 2];
  }
}
