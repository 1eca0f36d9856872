/** peak.util.ConflictManager: settings keyed by name, where each setting
    carries the inclusion path it came from.  Between two settings for the
    same key, the one whose path is a proper prefix of the other's (the one
    included less deeply) wins; equal or unrelated paths are a conflict. */
module ConflictManager {
  import opened Base

  datatype Entry<P, V> = Entry(path: seq<P>, value: V)

  /** What `__setitem__` does when the key already holds a setting. */
  datatype Outcome = Replace | Keep | Conflict

  datatype Error = KeyError

  /** The comparison of the stored path `stored` with the incoming `path`. */
  function Resolve<P(==)>(stored: seq<P>, path: seq<P>): (o: Outcome)
    ensures o == Replace <==> IsPrefix(path, stored) && path != stored
    ensures o == Keep <==> IsPrefix(stored, path) && path != stored
    ensures o == Conflict <==> path == stored || (!IsPrefix(path, stored) && !IsPrefix(stored, path))
  {
    var newBeatsOld := Take(stored, |path|) == path;
    var oldBeatsNew := Take(path, |stored|) == stored;
    if newBeatsOld == oldBeatsNew then Conflict
    else if oldBeatsNew then Keep
    else Replace
  }

  /** The settings after `cm[key] = (path, val)`, or the error it raises. */
  function Assign<K(==), P(==), V>(data: map<K, Entry<P, V>>, key: K, path: seq<P>, val: V)
    : (r: Result<map<K, Entry<P, V>>, Error>)
    ensures key !in data ==> r == Ok(data[key := Entry(path, val)])
  {
    if key !in data then Ok(data[key := Entry(path, val)])
    else match Resolve(data[key].path, path)
      case Conflict => Err(KeyError)
      case Keep => Ok(data)
      case Replace => Ok(data[key := Entry(path, val)])
  }

  /** A successful assignment leaves the winner's path a prefix of both the
      stored path and the incoming one, and touches no other key. */
  lemma AssignKeepsShortestPath<K, P, V>(data: map<K, Entry<P, V>>, key: K, path: seq<P>, val: V)
    requires Assign(data, key, path, val).Ok?
    ensures var d := Assign(data, key, path, val).value;
      key in d && IsPrefix(d[key].path, path)
      && (key in data ==> IsPrefix(d[key].path, data[key].path))
      && (forall k :: k in data && k != key ==> k in d && d[k] == data[k])
      && d.Keys == data.Keys + {key}
  {
    if key in data {
      var o := Resolve(data[key].path, path);
      if o == Keep {
        assert IsPrefix(data[key].path, path);
      } else {
        assert o == Replace;
        assert IsPrefix(path, data[key].path);
      }
    }
  }

  /** A conflicting assignment is exactly one with an equal or an unrelated
      path, and it raises KeyError. */
  lemma AssignConflicts<K, P, V>(data: map<K, Entry<P, V>>, key: K, path: seq<P>, val: V)
    requires key in data
    ensures Assign(data, key, path, val).Err?
        <==> path == data[key].path
             || (!IsPrefix(path, data[key].path) && !IsPrefix(data[key].path, path))
  {
  }

  /** Two settings with prefix-related, different paths end in the same table
      whatever order they are assigned in. */
  lemma AssignOrderIndependent<K, P, V>(data: map<K, Entry<P, V>>, key: K,
                                      p1: seq<P>, v1: V, p2: seq<P>, v2: V)
    requires key !in data
    requires p1 != p2 && (IsPrefix(p1, p2) || IsPrefix(p2, p1))
    ensures Assign(data, key, p1, v1).Ok? && Assign(data, key, p2, v2).Ok?
    ensures Assign(Assign(data, key, p1, v1).value, key, p2, v2)
         == Assign(Assign(data, key, p2, v2).value, key, p1, v1)
    ensures Assign(Assign(data, key, p1, v1).value, key, p2, v2).Ok?
  {
    var d1 := data[key := Entry(p1, v1)];
    var d2 := data[key := Entry(p2, v2)];
    if IsPrefix(p1, p2) {
      assert Resolve(p1, p2) == Keep;
      assert Resolve(p2, p1) == Replace;
      assert d2[key := Entry(p1, v1)] == d1;
    } else {
      assert Resolve(p1, p2) == Replace;
      assert Resolve(p2, p1) == Keep;
      assert d1[key := Entry(p2, v2)] == d2;
    }
  }

  /** The settings table itself. */
  class ConflictManager<K(==), P(==), V> {
    var data: map<K, Entry<P, V>>

    constructor ()
      ensures data == map[]
    {
      data := map[];
    }

    /** `cm[key]`: the value part of the stored setting; KeyError if absent. */
    function Get(key: K): (r: Result<V, Error>)
      reads this
      ensures r.Ok? <==> key in data
      ensures r.Ok? ==> r.value == data[key].value
    {
      if key in data then Ok(data[key].value) else Err(KeyError)
    }

    /** `values()`: one value per stored key, in some key order `ks`. */
    method Values() returns (vs: seq<V>, ghost ks: seq<K>)
      ensures |vs| == |ks| == |data|
      ensures Distinct(ks) && (forall k :: k in ks <==> k in data)
      ensures forall i :: 0 <= i < |ks| ==> ks[i] in data && vs[i] == data[ks[i]].value
    {
      var rest := data.Keys;
      vs, ks := [], [];
      while rest != {}
        invariant rest <= data.Keys
        invariant forall k :: k in ks <==> k in data && k !in rest
        invariant Distinct(ks) && |vs| == |ks|
        invariant |ks| + |rest| == |data|
        invariant forall i :: 0 <= i < |ks| ==> ks[i] in data && vs[i] == data[ks[i]].value
        decreases |rest|
      {
        var k :| k in rest;
        vs, ks := vs + [data[k].value], ks + [k];
        rest := rest - {k};
      }
    }

    method Clear()
      modifies this
      ensures data == map[]
    {
      data := map[];
    }

    /** `cm[key] = (path, val)`. */
    method Set(key: K, path: seq<P>, val: V) returns (r: Result<(), Error>)
      modifies this
      ensures Assign(old(data), key, path, val).Ok? ==>
                r == Ok(()) && data == Assign(old(data), key, path, val).value
      ensures Assign(old(data), key, path, val).Err? ==> r == Err(KeyError) && data == old(data)
    {
      if key in data {
        var stored := data[key].path;
        var newBeatsOld := Take(stored, |path|) == path;
        var oldBeatsNew := Take(path, |stored|) == stored;
        if newBeatsOld == oldBeatsNew {
          return Err(KeyError);
        } else if oldBeatsNew {
          return Ok(());
        }
      }
      data := data[key := Entry(path, val)];
      r := Ok(());
    }
  }

  /** The three cases of the module's tests. */
  lemma ShallowerPathWins()
    ensures Assign(Assign(map[], 123, [1], "xyz").value, 123, [], "abc")
         == Ok(map[123 := Entry([], "abc")])
    ensures Assign(Assign(map[], 123, [], "xyz").value, 123, [1], "abc")
         == Ok(map[123 := Entry([], "xyz")])
    ensures Assign(map["abc" := Entry([1], "xyz")], "abc", [2], "def") == Err(KeyError)
  {
    assert Resolve([1], []) == Replace;
    assert map[123 := Entry([1], "xyz")][123 := Entry([], "abc")] == map[123 := Entry([], "abc")];
    assert Resolve([], [1]) == Keep;
  }
}
