/** The component tree of `peak/binding/components.py`: the bounded
    parent chain, root and ancestry, component paths and their traversal,
    acquisition of names, setting a parent once, the assembly-notification
    queue and the plugin-key listing. */
module Components {
  import opened Base

  /** Objects are identified by number; `None` is Python's `None`. */
  type Comp = nat
  type Obj = Option<Comp>

  /** The tree: each component's parent (absent for a root or a
      non-component), its name, and the attributes each object has. */
  datatype Tree = Tree(parent: map<Comp, Comp>, name: map<Comp, string>, attrs: map<Comp, map<string, Obj>>)

  datatype Error = RuntimeError | AlreadyRead

  /** The default bound of `iterParents`. */
  const MaxDepth: nat := 100

  /** `getParentComponent(ob)`: None for a root, for a non-component and
      for None. */
  function ParentOf(t: Tree, o: Obj): Obj
  {
    if o.Some? && o.value in t.parent then Some(t.parent[o.value]) else None
  }

  /** `getattr(ob, name, NOT_FOUND)`: None stands for `NOT_FOUND`; None
      has no attributes. */
  function GetAttr(t: Tree, o: Obj, name: string): Option<Obj>
  {
    if o.Some? && o.value in t.attrs && name in t.attrs[o.value] then Some(t.attrs[o.value][name]) else None
  }

  // ---------------------------------------------------------------------
  // iterParents, hasParent, getRootComponent
  // ---------------------------------------------------------------------

  /** What `iterParents(o, ct)` yields when run to the end, and whether it
      then raises `RuntimeError` (after the `ct`-th item, whatever comes
      next). */
  function Chain(t: Tree, o: Obj, ct: nat): (r: (seq<Comp>, bool))
    requires ct >= 1
    ensures |r.0| <= ct && (r.1 ==> |r.0| == ct)
    ensures o.None? <==> r.0 == []
    decreases ct
  {
    if o.None? then ([], false)
    else if ct == 1 then ([o.value], true)
    else
      var r := Chain(t, ParentOf(t, o), ct - 1);
      ([o.value] + r.0, r.1)
  }

  /** The chain starts at the object, each item is followed by its parent,
      and a chain that does not overflow ends at a root. */
  lemma {:induction false} ChainLinks(t: Tree, o: Obj, ct: nat)
    requires ct >= 1
    ensures o.Some? ==> Chain(t, o, ct).0[0] == o.value
    ensures forall i :: 0 <= i < |Chain(t, o, ct).0| - 1 ==> ParentOf(t, Some(Chain(t, o, ct).0[i])) == Some(Chain(t, o, ct).0[i + 1])
    ensures !Chain(t, o, ct).1 && Chain(t, o, ct).0 != [] ==> ParentOf(t, Some(Chain(t, o, ct).0[|Chain(t, o, ct).0| - 1])) == None
    decreases ct
  {
    if o.Some? && ct > 1 {
      var p := ParentOf(t, o);
      ChainLinks(t, p, ct - 1);
      var r := Chain(t, p, ct - 1);
      var items := [o.value] + r.0;
      assert forall i :: 1 <= i < |items| ==> items[i] == r.0[i - 1];
    }
  }

  /** `iterParents(component, max_depth)`, consumed to the end. */
  method IterParents(t: Tree, o: Obj, maxDepth: nat) returns (items: seq<Comp>, overflow: bool)
    requires maxDepth >= 1
    ensures (items, overflow) == Chain(t, o, maxDepth)
  {
    var ct := maxDepth;
    var cur := o;
    items := [];
    while cur.Some?
      invariant 1 <= ct <= maxDepth
      invariant Chain(t, o, maxDepth).0 == items + Chain(t, cur, ct).0
      invariant Chain(t, o, maxDepth).1 == Chain(t, cur, ct).1
      decreases ct
    {
      items := items + [cur.value];
      ct := ct - 1;
      if ct != 0 {
        cur := ParentOf(t, cur);
      } else {
        return items, true;
      }
    }
    assert items + Chain(t, cur, ct).0 == items;
    return items, false;
  }

  /** `hasParent(component, parent)`: whether `parent` is on the chain;
      the search stops when it is found, so only a longer chain raises. */
  function HasParent(t: Tree, o: Obj, p: Comp): (r: Result<bool, Error>)
    ensures r == Ok(true) <==> p in Chain(t, o, MaxDepth).0
    ensures r.Err? <==> p !in Chain(t, o, MaxDepth).0 && Chain(t, o, MaxDepth).1
  {
    var (items, overflow) := Chain(t, o, MaxDepth);
    if p in items then Ok(true) else if overflow then Err(RuntimeError) else Ok(false)
  }

  /** `getRootComponent(component)`: the last item of the chain. */
  function GetRootComponent(t: Tree, o: Obj): (r: Result<Obj, Error>)
    ensures r.Err? <==> Chain(t, o, MaxDepth).1
    ensures r.Ok? && r.value.Some? ==> ParentOf(t, r.value) == None && r.value.value in Chain(t, o, MaxDepth).0
    ensures r.Ok? && o.None? ==> r.value == None
  {
    ChainLinks(t, o, MaxDepth);
    var (items, overflow) := Chain(t, o, MaxDepth);
    if overflow then Err(RuntimeError)
    else if items == [] then Ok(o)
    else Ok(Some(items[|items| - 1]))
  }

  /** Every component is within its own hierarchy and within its root's. */
  lemma HasParentSelfAndRoot(t: Tree, c: Comp)
    ensures HasParent(t, Some(c), c) == Ok(true)
    ensures GetRootComponent(t, Some(c)).Ok? ==> HasParent(t, Some(c), GetRootComponent(t, Some(c)).value.value) == Ok(true)
  {
    ChainLinks(t, Some(c), MaxDepth);
  }

  // ---------------------------------------------------------------------
  // getComponentPath
  // ---------------------------------------------------------------------

  /** `getComponentName(c) or '*'`. */
  function Seg(t: Tree, c: Comp): string
  {
    if c in t.name && t.name[c] != "" then t.name[c] else "*"
  }

  /** The segments `getComponentPath` collects from `items`, before the
      reversal, and whether it stopped at `root` or `rel`. */
  function PathSegs(t: Tree, items: seq<Comp>, root: Obj, rel: Obj): (seq<string>, bool)
  {
    if items == [] then ([], false)
    else if Some(items[0]) == root then ([""], true)
    else if Some(items[0]) == rel then ([], true)
    else
      var r := PathSegs(t, items[1..], root, rel);
      ([Seg(t, items[0])] + r.0, r.1)
  }

  /** The path of `o` relative to `relativeTo`, or to the root when that
      is None: the segments collected upward, reversed. */
  function ComponentPath(t: Tree, o: Obj, relativeTo: Obj): Result<seq<string>, Error>
  {
    var root := if relativeTo.None? then GetRootComponent(t, o) else Ok(None);
    if root.Err? then Err(RuntimeError)
    else
      var segs := PathSegs(t, Chain(t, o, MaxDepth).0, root.value, relativeTo);
      if !segs.1 && Chain(t, o, MaxDepth).1 then Err(RuntimeError) else Ok(Reverse(segs.0))
  }

  /** `getComponentPath(component, relativeTo)`. */
  method GetComponentPath(t: Tree, o: Obj, relativeTo: Obj) returns (r: Result<seq<string>, Error>)
    ensures r == ComponentPath(t, o, relativeTo)
  {
    var root: Obj := None;
    if relativeTo.None? {
      var rr := GetRootComponent(t, o);
      if rr.Err? {
        return Err(RuntimeError);
      }
      root := rr.value;
    }
    var items, overflow := IterParents(t, o, MaxDepth);
    var segs := CollectPath(t, items, root, relativeTo);
    if !segs.1 && overflow {
      return Err(RuntimeError);
    }
    return Ok(Reverse(segs.0));
  }

  /** Segments `p` collected before a walk that continues with `r`. */
  function Prepend(p: seq<string>, r: (seq<string>, bool)): (seq<string>, bool)
  {
    (p + r.0, r.1)
  }

  /** One step of `PathSegs` at position `i`. */
  lemma PathSegsAt(t: Tree, items: seq<Comp>, i: nat, root: Obj, rel: Obj)
    requires i < |items|
    ensures PathSegs(t, items[i..], root, rel) ==
      if Some(items[i]) == root then ([""], true)
      else if Some(items[i]) == rel then ([], true)
      else Prepend([Seg(t, items[i])], PathSegs(t, items[i + 1..], root, rel))
  {
    assert items[i..][0] == items[i] && items[i..][1..] == items[i + 1..];
  }

  lemma PrependTwice(p: seq<string>, q: seq<string>, r: (seq<string>, bool))
    ensures Prepend(p, Prepend(q, r)) == Prepend(p + q, r)
  {
    assert p + (q + r.0) == (p + q) + r.0;
  }

  /** The loop of `getComponentPath` over the chain. */
  method CollectPath(t: Tree, items: seq<Comp>, root: Obj, relativeTo: Obj) returns (r: (seq<string>, bool))
    ensures r == PathSegs(t, items, root, relativeTo)
  {
    var path: seq<string> := [];
    var i := 0;
    assert items[0..] == items;
    assert [] + PathSegs(t, items, root, relativeTo).0 == PathSegs(t, items, root, relativeTo).0;
    while i < |items|
      invariant 0 <= i <= |items|
      invariant PathSegs(t, items, root, relativeTo) == Prepend(path, PathSegs(t, items[i..], root, relativeTo))
    {
      PathSegsAt(t, items, i, root, relativeTo);
      var x: Obj := Some(items[i]);
      if x == root {
        return (path + [""], true);
      } else if x == relativeTo {
        assert path + [] == path;
        return (path, true);
      }
      PrependTwice(path, [Seg(t, items[i])], PathSegs(t, items[i + 1..], root, relativeTo));
      path := path + [Seg(t, items[i])];
      i := i + 1;
    }
    assert items[i..] == [] && path + [] == path;
    return (path, false);
  }

  /** The names of the chain items before the root. */
  function Segs(t: Tree, items: seq<Comp>): (r: seq<string>)
    ensures |r| == |items|
    ensures forall i :: 0 <= i < |items| ==> r[i] == Seg(t, items[i])
  {
    if items == [] then [] else [Seg(t, items[0])] + Segs(t, items[1..])
  }

  /** Along a chain that reaches a root, the root is the last item only:
      earlier items have parents. */
  lemma {:induction false} AbsoluteSegs(t: Tree, items: seq<Comp>, root: Comp)
    requires |items| >= 1 && items[|items| - 1] == root && ParentOf(t, Some(root)) == None
    requires forall i :: 0 <= i < |items| - 1 ==> ParentOf(t, Some(items[i])).Some?
    ensures PathSegs(t, items, Some(root), None) == (Segs(t, items[..|items| - 1]) + [""], true)
  {
    if |items| > 1 {
      var rest := items[1..];
      assert forall i :: 0 <= i < |rest| - 1 ==> rest[i] == items[i + 1];
      AbsoluteSegs(t, rest, root);
      assert rest[..|rest| - 1] == items[..|items| - 1][1..];
      assert items[0] != root;
      assert PathSegs(t, items, Some(root), None).0 == [Seg(t, items[0])] + PathSegs(t, rest, Some(root), None).0;
      assert Segs(t, items[..|items| - 1]) == [Seg(t, items[0])] + Segs(t, rest[..|rest| - 1]);
      assert PathSegs(t, items, Some(root), None).1 == PathSegs(t, rest, Some(root), None).1;
      assert [Seg(t, items[0])] + (Segs(t, rest[..|rest| - 1]) + [""]) == [Seg(t, items[0])] + Segs(t, rest[..|rest| - 1]) + [""];
    } else {
      assert items[..0] == [] && Segs(t, []) + [""] == [""];
      assert Some(items[0]) == Some(root);
    }
  }

  /** A path relative to the root starts with an empty segment, followed
      by the names of the components from just below the root down to the
      component, `*` for an unnamed one. */
  lemma AbsolutePath(t: Tree, c: Comp)
    requires !Chain(t, Some(c), MaxDepth).1
    ensures var items := Chain(t, Some(c), MaxDepth).0;
      Reverse(PathSegs(t, items, GetRootComponent(t, Some(c)).value, None).0) == [""] + Reverse(Segs(t, items[..|items| - 1]))
  {
    var items := Chain(t, Some(c), MaxDepth).0;
    var root := items[|items| - 1];
    ChainLinks(t, Some(c), MaxDepth);
    assert |items| >= 1 && ParentOf(t, Some(root)) == None;
    forall i | 0 <= i < |items| - 1
      ensures ParentOf(t, Some(items[i])).Some?
    {
      assert ParentOf(t, Some(items[i])) == Some(items[i + 1]);
    }
    AbsoluteSegs(t, items, root);
    ReverseAppend(Segs(t, items[..|items| - 1]), [""]);
  }

  // ---------------------------------------------------------------------
  // acquireComponent
  // ---------------------------------------------------------------------

  /** The outcomes of a name lookup: found, deferred to the root's
      `nameNotFound` (with the last component tried), failed there,
      `NameNotFound` with the resolved and remaining parts, or
      `RuntimeError`. */
  datatype Outcome = Found(obj: Obj) | Deferred(last: Obj, name: string) | LookupFailed(name: string)
                   | NameNotFound(resolved: seq<string>, remaining: seq<string>) | Overflow

  /** `nameNotFound(root, name, forObj)` of the configuration root the
      search ended at (or of `NullConfigRoot`): the object it answers, or
      None when it raises. */
  type NameLookup = (Obj, string, Obj) -> Option<Obj>

  /** The acquisition over the chain items from `prev` on. */
  function Acquire(t: Tree, items: seq<Comp>, overflow: bool, name: string, prev: Obj): (r: Outcome)
    ensures r.Found? || r.Overflow? || r.Deferred?
    ensures r.Deferred? ==> r.name == name && !overflow
  {
    if items == [] then (if overflow then Overflow else Deferred(prev, name))
    else if GetAttr(t, Some(items[0]), name).Some? then Found(GetAttr(t, Some(items[0]), name).value)
    else Acquire(t, items[1..], overflow, name, Some(items[0]))
  }

  /** `acquireComponent(component, name)`: the chain search, with a miss
      handed to `nameNotFound`. */
  function Acquired(t: Tree, o: Obj, name: string, nameNotFound: NameLookup): (r: Outcome)
    ensures r.Found? || r.Overflow? || r == LookupFailed(name)
  {
    match Acquire(t, Chain(t, o, MaxDepth).0, Chain(t, o, MaxDepth).1, name, o)
    case Deferred(last, n) => if nameNotFound(last, n, o).Some? then Found(nameNotFound(last, n, o).value) else LookupFailed(n)
    case other => other
  }

  /** One chain item of the acquisition. */
  lemma AcquireStep(t: Tree, items: seq<Comp>, i: nat, overflow: bool, name: string, prev: Obj)
    requires i < |items|
    ensures Acquire(t, items[i..], overflow, name, prev) ==
      if GetAttr(t, Some(items[i]), name).Some? then Found(GetAttr(t, Some(items[i]), name).value)
      else Acquire(t, items[i + 1..], overflow, name, Some(items[i]))
  {
    assert items[i..][0] == items[i] && items[i..][1..] == items[i + 1..];
  }

  /** `acquireComponent(component, name)`. */
  method AcquireComponent(t: Tree, o: Obj, name: string, nameNotFound: NameLookup) returns (r: Outcome)
    ensures r == Acquired(t, o, name, nameNotFound)
  {
    var items, overflow := IterParents(t, o, MaxDepth);
    var prev := o;
    var i := 0;
    while i < |items|
      invariant 0 <= i <= |items|
      invariant Acquire(t, items, overflow, name, o) == Acquire(t, items[i..], overflow, name, prev)
    {
      AcquireStep(t, items, i, overflow, name, prev);
      var ob := GetAttr(t, Some(items[i]), name);
      if ob.Some? {
        return Found(ob.value);
      }
      prev := Some(items[i]);
      i := i + 1;
    }
    assert items[i..] == [];
    assert Acquire(t, items, overflow, name, o) == if overflow then Overflow else Deferred(prev, name);
    if overflow {
      return Overflow;
    }
    var ob := nameNotFound(prev, name, o);
    if ob.None? {
      return LookupFailed(name);
    }
    return Found(ob.value);
  }

  /** The nearest chain member that has the attribute supplies it; with
      none, the lookup is deferred from the last member. */
  lemma {:induction false} AcquireNearest(t: Tree, items: seq<Comp>, overflow: bool, name: string, prev: Obj, i: nat)
    requires i < |items| && GetAttr(t, Some(items[i]), name).Some?
    requires forall j :: 0 <= j < i ==> GetAttr(t, Some(items[j]), name).None?
    ensures Acquire(t, items, overflow, name, prev) == Found(GetAttr(t, Some(items[i]), name).value)
  {
    if i > 0 {
      assert forall j :: 0 <= j < i - 1 ==> items[1..][j] == items[j + 1];
      AcquireNearest(t, items[1..], overflow, name, Some(items[0]), i - 1);
    }
  }

  lemma {:induction false} AcquireMissing(t: Tree, items: seq<Comp>, overflow: bool, name: string, prev: Obj)
    requires forall j :: 0 <= j < |items| ==> GetAttr(t, Some(items[j]), name).None?
    ensures Acquire(t, items, overflow, name, prev) ==
      if overflow then Overflow else Deferred(if items == [] then prev else Some(items[|items| - 1]), name)
  {
    if items != [] {
      assert forall j :: 0 <= j < |items| - 1 ==> items[1..][j] == items[j + 1];
      AcquireMissing(t, items[1..], overflow, name, Some(items[0]));
    }
  }

  /** When no member of a complete chain has the attribute, the root's
      `nameNotFound` decides, asked from the root with the component the
      search started at. */
  lemma AcquiredFallsBack(t: Tree, o: Obj, name: string, nameNotFound: NameLookup)
    requires !Chain(t, o, MaxDepth).1
    requires forall j :: 0 <= j < |Chain(t, o, MaxDepth).0| ==> GetAttr(t, Some(Chain(t, o, MaxDepth).0[j]), name).None?
    ensures var items := Chain(t, o, MaxDepth).0;
      var last := if items == [] then o else Some(items[|items| - 1]);
      Acquired(t, o, name, nameNotFound) ==
        if nameNotFound(last, name, o).Some? then Found(nameNotFound(last, name, o).value) else LookupFailed(name)
  {
    AcquireMissing(t, Chain(t, o, MaxDepth).0, false, name, o);
  }

  // ---------------------------------------------------------------------
  // ComponentName.findComponent
  // ---------------------------------------------------------------------

  /** A later segment: `''` and `.` stay, `..` goes to the parent, any
      other name is an attribute (None when it is missing). */
  function Step(t: Tree, o: Obj, a: string): (r: Option<Obj>)
    ensures r.None? ==> a !in {"", ".", ".."}
    ensures a in {"", "."} ==> r == Some(o)
  {
    if a == "" || a == "." then Some(o)
    else if a == ".." then Some(ParentOf(t, o))
    else GetAttr(t, o, a)
  }

  /** A walk over later segments: where it ends, or how many segments
      succeeded before one failed. */
  datatype WalkOut = Reached(obj: Obj) | Stuck(done: nat)

  function Walk(t: Tree, o: Obj, parts: seq<string>): (r: WalkOut)
    ensures r.Stuck? ==> r.done < |parts|
    decreases |parts|
  {
    if parts == [] then Reached(o)
    else match Step(t, o, parts[0])
      case None => Stuck(0)
      case Some(o') =>
        match Walk(t, o', parts[1..])
        case Reached(x) => Reached(x)
        case Stuck(d) => Stuck(d + 1)
  }

  /** The walk fails exactly at the first segment that does not resolve:
      the ones before it succeed and it does not. */
  lemma {:induction false} WalkStuck(t: Tree, o: Obj, parts: seq<string>)
    requires Walk(t, o, parts).Stuck?
    ensures var d := Walk(t, o, parts).done;
      Walk(t, o, parts[..d]).Reached? && Step(t, Walk(t, o, parts[..d]).obj, parts[d]).None?
    decreases |parts|
  {
    if Step(t, o, parts[0]).Some? {
      WalkStuck(t, Step(t, o, parts[0]).value, parts[1..]);
      var d := Walk(t, o, parts).done;
      assert parts[..d][1..] == parts[1..][..d - 1];
    }
  }

  /** The first segment: `''` is the root, `.` the component itself, `..`
      its parent, any other name is acquired. */
  function First(t: Tree, o: Obj, a: string, nameNotFound: NameLookup): Outcome
  {
    if a == "" then
      match GetRootComponent(t, o)
      case Ok(root) => Found(root)
      case Err(_) => Overflow
    else if a == "." then Found(o)
    else if a == ".." then Found(ParentOf(t, o))
    else Acquired(t, o, a, nameNotFound)
  }

  /** `findComponent(component, default)` for the path `parts`: a failed
      later segment gives the default when there is one, and otherwise
      `NameNotFound` with the segments resolved after the first and the
      failed segment with the rest. */
  function Find(t: Tree, o: Obj, parts: seq<string>, default: Option<Obj>, nameNotFound: NameLookup): (r: Outcome)
    ensures parts == [] ==> r == Found(o)
    ensures !r.Deferred?
    ensures r.LookupFailed? ==> r.name == parts[0]
    ensures r.NameNotFound? ==>
      default.None? && r.remaining != [] && |parts| >= 2 && r.resolved + r.remaining == parts[1..]
  {
    if parts == [] then Found(o)
    else match First(t, o, parts[0], nameNotFound)
      case Found(ob) => Finish(Walk(t, ob, parts[1..]), parts[1..], default)
      case other => other
  }

  /** `ComponentName.findComponent`. */
  method FindComponent(t: Tree, o: Obj, parts: seq<string>, default: Option<Obj>, nameNotFound: NameLookup) returns (r: Outcome)
    ensures r == Find(t, o, parts, default, nameNotFound)
  {
    if parts == [] {
      return Found(o);
    }
    var attr := parts[0];
    var ob: Obj;
    if attr == "" {
      var root := GetRootComponent(t, o);
      if root.Err? {
        return Overflow;
      }
      ob := root.value;
    } else if attr == "." {
      ob := o;
    } else if attr == ".." {
      ob := ParentOf(t, o);
    } else {
      var a := AcquireComponent(t, o, attr, nameNotFound);
      if !a.Found? {
        return a;
      }
      ob := a.obj;
    }
    r := WalkRest(t, ob, parts[1..], default);
  }

  /** How a walk over the later segments `rest` ends for `findComponent`. */
  function Finish(w: WalkOut, rest: seq<string>, default: Option<Obj>): Outcome
    requires w.Stuck? ==> w.done < |rest|
  {
    match w
    case Reached(x) => Found(x)
    case Stuck(d) => if default.Some? then Found(default.value) else NameNotFound(rest[..d], rest[d..])
  }

  /** The loop of `findComponent` over the later segments. */
  method WalkRest(t: Tree, start: Obj, rest: seq<string>, default: Option<Obj>) returns (r: Outcome)
    ensures r == Finish(Walk(t, start, rest), rest, default)
  {
    var ob := start;
    var resolved: seq<string> := [];
    var i := 0;
    while i < |rest|
      invariant 0 <= i <= |rest| && resolved == rest[..i]
      invariant Walk(t, start, rest) == Shift(Walk(t, ob, rest[i..]), i)
    {
      assert rest[i..][0] == rest[i] && rest[i..][1..] == rest[i + 1..];
      var next := Step(t, ob, rest[i]);
      if next.None? {
        if default.Some? {
          return Found(default.value);
        }
        return NameNotFound(resolved, rest[i..]);
      }
      ob := next.value;
      resolved := resolved + [rest[i]];
      i := i + 1;
    }
    assert rest[i..] == [];
    return Found(ob);
  }

  /** A walk result seen from `i` segments earlier. */
  function Shift(w: WalkOut, i: nat): WalkOut
  {
    match w
    case Reached(x) => Reached(x)
    case Stuck(d) => Stuck(d + i)
  }

  /** `''` and `.` after the first segment change nothing. */
  lemma StaySegments(t: Tree, o: Obj, a: string, rest: seq<string>)
    requires a == "" || a == "."
    ensures Walk(t, o, [a] + rest) == Shift(Walk(t, o, rest), 1)
  {
    assert ([a] + rest)[1..] == rest;
  }

  /** The chain of `c` is named consistently: every component below the
      root has a proper name under which its parent holds it. */
  predicate Named(t: Tree, items: seq<Comp>)
  {
    forall i :: 0 <= i < |items| - 1 ==>
      && items[i] in t.name && t.name[items[i]] !in {"", ".", ".."} && t.name[items[i]] != "*"
      && ParentOf(t, Some(items[i])) == Some(items[i + 1])
      && GetAttr(t, Some(items[i + 1]), t.name[items[i]]) == Some(Some(items[i]))
  }

  /** Walking the names downward from the top of a consistently named
      chain reaches its bottom. */
  lemma {:induction false} WalkDown(t: Tree, items: seq<Comp>, j: nat)
    requires j < |items| && Named(t, items)
    ensures Walk(t, Some(items[j]), Reverse(Segs(t, items[..j]))) == Reached(Some(items[0]))
  {
    if j > 0 {
      var n := t.name[items[j - 1]];
      assert Seg(t, items[j - 1]) == n;
      assert items[..j] == items[..j - 1] + [items[j - 1]];
      assert Segs(t, items[..j]) == Segs(t, items[..j - 1]) + [n];
      ReverseAppend(Segs(t, items[..j - 1]), [n]);
      var p := [n] + Reverse(Segs(t, items[..j - 1]));
      assert Step(t, Some(items[j]), n) == Some(Some(items[j - 1]));
      assert p[1..] == Reverse(Segs(t, items[..j - 1]));
      WalkDown(t, items, j - 1);
    }
  }

  /** Round trip: in a consistently named tree, following the path
      `getComponentPath` gives from the component itself leads back to it. */
  lemma PathRoundTrip(t: Tree, c: Comp)
    requires !Chain(t, Some(c), MaxDepth).1 && Named(t, Chain(t, Some(c), MaxDepth).0)
    ensures var path := Reverse(PathSegs(t, Chain(t, Some(c), MaxDepth).0, GetRootComponent(t, Some(c)).value, None).0);
      forall nameNotFound: NameLookup :: Find(t, Some(c), path, None, nameNotFound) == Found(Some(c))
  {
    var items := Chain(t, Some(c), MaxDepth).0;
    var k := |items| - 1;
    AbsolutePath(t, c);
    var path := [""] + Reverse(Segs(t, items[..k]));
    assert path[1..] == Reverse(Segs(t, items[..k]));
    WalkDown(t, items, k);
  }

  /** A first segment that no member of a complete chain holds is answered
      by the root's `nameNotFound`, and the later segments are walked from
      its answer; when it fails, so does the search, whatever the default. */
  lemma FindThroughRoot(t: Tree, o: Obj, parts: seq<string>, default: Option<Obj>, nameNotFound: NameLookup)
    requires |parts| >= 1 && parts[0] !in {"", ".", ".."} && !Chain(t, o, MaxDepth).1
    requires forall j :: 0 <= j < |Chain(t, o, MaxDepth).0| ==> GetAttr(t, Some(Chain(t, o, MaxDepth).0[j]), parts[0]).None?
    ensures var items := Chain(t, o, MaxDepth).0;
      var last := if items == [] then o else Some(items[|items| - 1]);
      var answer := nameNotFound(last, parts[0], o);
      Find(t, o, parts, default, nameNotFound) ==
        if answer.Some? then Finish(Walk(t, answer.value, parts[1..]), parts[1..], default) else LookupFailed(parts[0])
  {
    AcquiredFallsBack(t, o, parts[0], nameNotFound);
  }

  // ---------------------------------------------------------------------
  // Component.setParentComponent
  // ---------------------------------------------------------------------

  /** The parent setting of one component: `parentSetting` None stands for
      `NOT_GIVEN`; reading the parent before any is set fixes it to None. */
  class Component {
    var parentSetting: Option<Obj>
    var componentName: Option<string>

    constructor ()
      ensures parentSetting == None && componentName == None
    {
      parentSetting, componentName := None, None;
    }

    /** `setParentComponent(parent, name, suggest)`: only the first call
        before any read takes effect; later calls are ignored when
        suggested and raise `AlreadyRead` otherwise. */
    method SetParentComponent(parent: Obj, name: Option<string>, suggest: bool) returns (err: Option<Error>)
      modifies this
      ensures old(parentSetting).None? ==> err.None? && parentSetting == Some(parent) && componentName == name
      ensures old(parentSetting).Some? ==>
        (parentSetting == old(parentSetting) && componentName == old(componentName)
         && err == (if suggest then None else Some(AlreadyRead)))
    {
      if parentSetting.None? {
        parentSetting, componentName := Some(parent), name;
        return None;
      } else if suggest {
        return None;
      }
      return Some(AlreadyRead);
    }

    /** `getParentComponent()`: reading locks the setting. */
    method GetParentComponent() returns (p: Obj)
      modifies this`parentSetting
      ensures parentSetting == Some(if old(parentSetting).Some? then old(parentSetting).value else None)
      ensures p == parentSetting.value
    {
      if parentSetting.None? {
        parentSetting := Some(None);
      }
      p := parentSetting.value;
    }
  }

  // ---------------------------------------------------------------------
  // uponAssembly
  // ---------------------------------------------------------------------

  /** Some queued child's own `uponAssembly` raises. */
  predicate ChildFails(queue: seq<Comp>, ok: Comp -> bool)
  {
    exists i :: 0 <= i < |queue| && !ok(queue[i])
  }

  /** The children `uponAssembly` notifies, last-queued first, up to and
      including the first whose own `uponAssembly` raises (`ok` says which
      succeed). */
  function Notified(queue: seq<Comp>, ok: Comp -> bool): (r: seq<Comp>)
    ensures |r| <= |queue|
  {
    if queue == [] then []
    else if !ok(queue[|queue| - 1]) then [queue[|queue| - 1]]
    else [queue[|queue| - 1]] + Notified(queue[..|queue| - 1], ok)
  }

  /** The children are notified last-queued first, and all before the
      last succeed. */
  lemma {:induction false} NotifiedOrder(queue: seq<Comp>, ok: Comp -> bool)
    ensures forall i :: 0 <= i < |Notified(queue, ok)| ==> Notified(queue, ok)[i] == queue[|queue| - 1 - i]
    ensures forall i :: 0 <= i < |Notified(queue, ok)| - 1 ==> ok(Notified(queue, ok)[i])
  {
    if queue != [] && ok(queue[|queue| - 1]) {
      var front := queue[..|queue| - 1];
      NotifiedOrder(front, ok);
      var r := Notified(queue, ok);
      assert forall i :: 1 <= i < |r| ==> r[i] == Notified(front, ok)[i - 1] == front[|front| - i];
    }
  }

  /** The last child notified fails exactly when some child fails, and
      otherwise every child is notified. */
  lemma {:induction false} NotifiedFails(queue: seq<Comp>, ok: Comp -> bool)
    ensures ChildFails(queue, ok) <==> |Notified(queue, ok)| > 0 && !ok(Notified(queue, ok)[|Notified(queue, ok)| - 1])
    ensures !ChildFails(queue, ok) ==> |Notified(queue, ok)| == |queue|
  {
    if queue != [] && ok(queue[|queue| - 1]) {
      var front := queue[..|queue| - 1];
      NotifiedFails(front, ok);
      assert ChildFails(queue, ok) <==> ChildFails(front, ok) by {
        if ChildFails(queue, ok) {
          var i :| 0 <= i < |queue| && !ok(queue[i]);
          assert i != |queue| - 1;
          assert front[i] == queue[i];
        }
        if ChildFails(front, ok) {
          var i :| 0 <= i < |front| && !ok(front[i]);
          assert front[i] == queue[i];
        }
      }
    }
  }

  /** The child queued last is the first notified. */
  lemma NotifiedLastFirst(queue: seq<Comp>, child: Comp, ok: Comp -> bool)
    ensures Notified(queue + [child], ok)[0] == child
    ensures ok(child) ==> Notified(queue + [child], ok) == [child] + Notified(queue, ok)
  {
    assert (queue + [child])[..|queue|] == queue;
  }

  /** The queue of children waiting for assembly; None once assembled. */
  class Assembly {
    var pending: Option<seq<Comp>>

    constructor ()
      ensures pending == Some([])
    {
      pending := Some([]);
    }

    /** `notifyUponAssembly(child)`: after assembly the child is notified
        at once; before it, the child is queued, and the first child queued
        by a component whose parent is set and that has no attributes to
        assemble also asks that parent to notify the component itself. */
    method NotifyUponAssembly(child: Comp, parentSet: bool, hasAttrs: bool) returns (callNow: bool, askParent: bool)
      modifies this
      ensures old(pending).None? ==> callNow && !askParent && pending == None
      ensures old(pending).Some? ==>
        && !callNow && pending == Some(old(pending).value + [child])
        && (askParent <==> old(pending).value == [] && parentSet && !hasAttrs)
    {
      if pending.None? {
        return true, false;
      }
      var tba := pending.value + [child];
      pending := Some(tba);
      return false, |tba| == 1 && parentSet && !hasAttrs;
    }

    /** `uponAssembly()`: notifies the queued children last-first; a child
        that raises is queued again with those not yet notified, and the
        error passes on. `attrsOk` says whether reading the attributes to
        be assembled succeeds. */
    method UponAssembly(ok: Comp -> bool, attrsOk: bool) returns (notified: seq<Comp>, failed: bool)
      modifies this
      ensures old(pending).None? ==> notified == [] && !failed && pending == None
      ensures old(pending).Some? ==>
        var q := old(pending).value;
        && notified == Notified(q, ok)
        && (failed <==> ChildFails(q, ok) || !attrsOk)
        && pending == (if !failed then None
                       else if ChildFails(q, ok) then Some(q[..|q| - |notified| + 1])
                       else Some([]))
    {
      if pending.None? {
        return [], false;
      }
      var tba := pending.value;
      ghost var q := tba;
      pending := None;
      notified := [];
      while tba != []
        invariant |tba| + |notified| == |q| && tba == q[..|tba|]
        invariant Notified(q, ok) == notified + Notified(tba, ok)
        invariant forall i :: |tba| <= i < |q| ==> ok(q[i])
      {
        var ob := tba[|tba| - 1];
        var rest := tba[..|tba| - 1];
        assert Notified(tba, ok) == if ok(ob) then [ob] + Notified(rest, ok) else [ob];
        if !ok(ob) {
          assert ChildFails(q, ok) by {
            assert !ok(q[|tba| - 1]);
          }
          pending := Some(tba);
          return notified + [ob], true;
        }
        assert notified + ([ob] + Notified(rest, ok)) == (notified + [ob]) + Notified(rest, ok);
        tba := rest;
        notified := notified + [ob];
      }
      if !attrsOk {
        pending := Some(tba);
        return notified, true;
      }
      return notified, false;
    }
  }

  // ---------------------------------------------------------------------
  // PluginKeys.findComponent
  // ---------------------------------------------------------------------

  /** `PluginKeys(configKey, sortBy).findComponent(component)`: `keys` is
      what `iterKeys` yields. Without `sortBy`, the keys in that order;
      with it, sorted by `(sortBy(k), k)`. */
  function PluginKeys(keys: seq<string>, sortBy: Option<string -> string>): (r: seq<string>)
    ensures multiset(r) == multiset(keys)
    ensures sortBy.None? ==> r == keys
    ensures sortBy.Some? ==> SortedBy(r, ByKey(sortBy.value))
  {
    if sortBy.None? then keys
    else
      ByKeyTotal(sortBy.value);
      SortSorted(keys, ByKey(sortBy.value));
      Sort(keys, ByKey(sortBy.value))
  }

  /** The order of `sort()` on the pairs `(f(k), k)`. */
  function ByKey(f: string -> string): (string, string) -> bool
  {
    (k: string, l: string) => PairLe(f(k), k, f(l), l)
  }

  /** Any two keys are ordered one way or the other. */
  lemma ByKeyTotal(f: string -> string)
    ensures Total(ByKey(f))
  {
    forall k: string, l: string
      ensures ByKey(f)(k, l) || ByKey(f)(l, k)
    {
      PairTotal(f(k), k, f(l), l);
    }
  }

  /** Python's tuple comparison of `(a, x) <= (b, y)` on strings. */
  predicate PairLe(a: string, x: string, b: string, y: string)
  {
    StrLt(a, b) || (a == b && StrLe(x, y))
  }

  lemma PairTotal(a: string, x: string, b: string, y: string)
    ensures PairLe(a, x, b, y) || PairLe(b, y, a, x)
  {
    StrTotal(a, b);
    StrTotal(x, y);
    if StrLe(a, b) && StrLe(b, a) {
      StrAntisym(a, b);
    }
  }
}
