/** The traversable places of `peak/web/places.py`: the URL a `Place`
    derives from its parent chain, the containers a `Location` searches in
    order, and the aggregation a `MultiTraverser` performs. Objects are
    numbered; what traversing an object by a name gives is a parameter. */
module Places {
  import opened Base
  import opened Security

  // ---------------------------------------------------------------------
  // place_url
  // ---------------------------------------------------------------------

  /** A component as `place_url` sees it: its name (`None` for none), a
      `place_url` set explicitly, whether it is a place, and its parent. */
  datatype Comp = Comp(name: Option<string>, fixedUrl: Option<string>, isPlace: bool, parent: Option<Comp>)

  /** `posixpath.join(a, b)`: `b` when it is absolute, else `b` appended to
      `a` with a `/` between them unless `a` is empty or ends in one. */
  function PosixJoin(a: string, b: string): (r: string)
    ensures |b| > 0 && b[0] == '/' ==> r == b
    ensures (|b| == 0 || b[0] != '/') ==> IsPrefix(a, r) && |b| <= |r| && r[|r| - |b|..] == b
  {
    if |b| > 0 && b[0] == '/' then b
    else if a == [] || a[|a| - 1] == '/' then a + b
    else a + "/" + b
  }

  /** Whether `c` takes its URL from its parent: it is named and its
      parent is a place. */
  predicate IsChild(c: Comp)
  {
    c.name.Some? && c.parent.Some? && c.parent.value.isPlace
  }

  /** `place_url`: the one set explicitly; otherwise `''` for an unnamed
      component or one whose parent is not a place, the parent's URL for
      the name `''`, and the parent's URL joined with the name otherwise. */
  function PlaceUrl(c: Comp): string
    decreases c
  {
    if c.fixedUrl.Some? then c.fixedUrl.value
    else if !IsChild(c) then ""
    else if c.name.value == "" then PlaceUrl(c.parent.value)
    else PosixJoin(PlaceUrl(c.parent.value), c.name.value)
  }

  /** The derivation rules of `place_url`: a component with no name, or
      whose parent is not a place, is at the root; one named `''` shares
      its parent's URL; any other relative name extends the parent's URL,
      which it then ends with. */
  lemma PlaceUrlRules(c: Comp)
    requires c.fixedUrl.None?
    ensures !IsChild(c) ==> PlaceUrl(c) == ""
    ensures IsChild(c) && c.name.value == "" ==> PlaceUrl(c) == PlaceUrl(c.parent.value)
    ensures IsChild(c) && c.name.value != "" && c.name.value[0] != '/' ==>
      var u := PlaceUrl(c);
      IsPrefix(PlaceUrl(c.parent.value), u) && u[|u| - |c.name.value|..] == c.name.value
  {
  }

  /** A chain whose URLs are all derived and whose names hold no `/`. */
  predicate Plain(c: Comp)
    decreases c
  {
    c.fixedUrl.None? && (c.name.Some? ==> '/' !in c.name.value)
    && (IsChild(c) ==> Plain(c.parent.value))
  }

  /** The non-empty names from the root place down to `c`. */
  function Names(c: Comp): (r: seq<string>)
    ensures forall i :: 0 <= i < |r| ==> r[i] != ""
    decreases c
  {
    if !IsChild(c) then []
    else Names(c.parent.value) + (if c.name.value == "" then [] else [c.name.value])
  }

  /** The names of the chain hold no `/`. */
  lemma {:induction false} NamesPlain(c: Comp)
    requires Plain(c)
    ensures forall i :: 0 <= i < |Names(c)| ==> '/' !in Names(c)[i]
    decreases c
  {
    if IsChild(c) {
      NamesPlain(c.parent.value);
    }
  }

  /** On a plain chain the URL is the names from the root joined by `/`. */
  lemma {:induction false} PlaceUrlJoins(c: Comp)
    requires Plain(c)
    ensures PlaceUrl(c) == Join(Names(c), '/')
    decreases c
  {
    if IsChild(c) && c.name.value != "" {
      var p := c.parent.value;
      var n := c.name.value;
      PlaceUrlJoins(p);
      NamesPlain(p);
      JoinSnoc(Names(p), n, '/');
      JoinLast(Names(p));
    } else if IsChild(c) {
      PlaceUrlJoins(c.parent.value);
      assert PlaceUrl(c) == PlaceUrl(c.parent.value);
      assert Names(c) == Names(c.parent.value) + [] == Names(c.parent.value);
    }
  }

  /** Names without `/`, none empty, join to a text that is empty exactly
      when there are none and never ends in `/`. */
  lemma {:induction false} JoinLast(ns: seq<string>)
    requires forall i :: 0 <= i < |ns| ==> ns[i] != "" && '/' !in ns[i]
    ensures var j := Join(ns, '/'); (j == "" <==> ns == []) && (j != "" ==> j[|j| - 1] != '/')
    decreases |ns|
  {
    if |ns| == 1 {
      assert ns[0][|ns[0]| - 1] in ns[0];
    } else if |ns| > 1 {
      JoinLast(ns[1..]);
      var rest := Join(ns[1..], '/');
      assert Join(ns, '/') == ns[0] + "/" + rest;
    }
  }

  // ---------------------------------------------------------------------
  // Location
  // ---------------------------------------------------------------------

  type Obj = nat

  /** Whether a container may be searched: one registered without a
      permission always may, any other when the context allows it. */
  predicate Permitted(entry: (Option<Permission>, Obj), allows: (Obj, Permission) -> bool)
  {
    entry.0.None? || allows(entry.1, entry.0.value)
  }

  /** The result of the first container, in search order, that may be
      searched and resolves `name`. */
  function FirstHit<R>(cs: seq<(Option<Permission>, Obj)>, name: string,
                    allows: (Obj, Permission) -> bool, lookup: (Obj, string) -> Option<R>): Option<R>
    decreases |cs|
  {
    if cs == [] then None
    else if Permitted(cs[0], allows) && lookup(cs[0].1, name).Some? then lookup(cs[0].1, name)
    else FirstHit(cs[1..], name, allows, lookup)
  }

  /** A hit is the result of a searchable container that resolves the
      name, with no such container before it; there is no hit exactly when
      there is no such container. */
  lemma {:induction false} FirstHitIsFirst<R>(cs: seq<(Option<Permission>, Obj)>, name: string,
                                           allows: (Obj, Permission) -> bool, lookup: (Obj, string) -> Option<R>)
    ensures FirstHit(cs, name, allows, lookup).None? <==>
      forall i :: 0 <= i < |cs| ==> !(Permitted(cs[i], allows) && lookup(cs[i].1, name).Some?)
    ensures FirstHit(cs, name, allows, lookup).Some? ==>
      exists i :: 0 <= i < |cs| && Permitted(cs[i], allows) && lookup(cs[i].1, name) == FirstHit(cs, name, allows, lookup)
        && forall j :: 0 <= j < i ==> !(Permitted(cs[j], allows) && lookup(cs[j].1, name).Some?)
    decreases |cs|
  {
    if cs != [] && !(Permitted(cs[0], allows) && lookup(cs[0].1, name).Some?) {
      FirstHitIsFirst(cs[1..], name, allows, lookup);
      var r := FirstHit(cs, name, allows, lookup);
      if r.Some? {
        var i :| 0 <= i < |cs[1..]| && Permitted(cs[1..][i], allows) && lookup(cs[1..][i].1, name) == r
          && forall j :: 0 <= j < i ==> !(Permitted(cs[1..][j], allows) && lookup(cs[1..][j].1, name).Some?);
        assert cs[i + 1] == cs[1..][i];
        forall j | 0 <= j < i + 1
          ensures !(Permitted(cs[j], allows) && lookup(cs[j].1, name).Some?)
        {
          if j > 0 {
            assert cs[j] == cs[1..][j - 1];
          }
        }
      } else {
        forall i | 0 <= i < |cs|
          ensures !(Permitted(cs[i], allows) && lookup(cs[i].1, name).Some?)
        {
          if i > 0 {
            assert cs[i] == cs[1..][i - 1];
          }
        }
      }
    }
  }

  /** Searching the containers `front` and then `back` finds the hit of
      `front` when there is one, and that of `back` otherwise. */
  lemma {:induction false} FirstHitAppend<R>(front: seq<(Option<Permission>, Obj)>, back: seq<(Option<Permission>, Obj)>, name: string,
                                          allows: (Obj, Permission) -> bool, lookup: (Obj, string) -> Option<R>)
    ensures FirstHit(front + back, name, allows, lookup) ==
      if FirstHit(front, name, allows, lookup).Some? then FirstHit(front, name, allows, lookup)
      else FirstHit(back, name, allows, lookup)
    decreases |front|
  {
    if front == [] {
      assert front + back == back;
    } else {
      assert (front + back)[0] == front[0] && (front + back)[1..] == front[1..] + back;
      FirstHitAppend(front[1..], back, name, allows, lookup);
    }
  }

  /** A traversal context: the object it is at and the object of its
      parent context, which `..` leads back to. */
  datatype Ctx = Ctx(current: Obj, up: Obj)

  /** The context `traverseTo` is called with, as far as its re-pointing
      step sees it. A start context is its own parent context, so the
      parent context of the clone made for a container is the clone
      itself. An ordinary context passes its `previous` on to the clone,
      so the parent context of the clone is the caller's `previous`, whose
      object is `prevCurrent`. */
  datatype From = Start | Within(prevCurrent: Obj)

  /** A context found in container `c`, from a start context: the clone
      at `c` is re-pointed at the location, which a context found below
      the clone sees, so that `..` leads back to the location. */
  function Up(x: Ctx, c: Obj, loc: Obj): (r: Ctx)
    ensures r.current == x.current
    ensures r.up == (if x.up == c then loc else x.up)
  {
    if x.up == c then x.(up := loc) else x
  }

  /** The re-pointing step after container `c` resolved the name to `x`:
      the parent context of the clone is re-pointed from `c` to `loc`. From
      a start context that is the clone, seen by `x`; from an ordinary
      context it is the caller's `previous`, and `x` is left as it is. */
  function Repointed(from: From, c: Obj, x: Ctx, loc: Obj): (r: (Ctx, From))
    ensures r.0.current == x.current
    ensures from.Within? ==> r.0 == x
    ensures from.Within? ==> r.1.Within? && r.1.prevCurrent == (if from.prevCurrent == c then loc else from.prevCurrent)
    ensures from.Start? ==> r.1 == Start && (r.0.up == loc <==> x.up == c || x.up == loc)
  {
    match from
    case Start => (Up(x, c, loc), Start)
    case Within(p) => (x, if p == c then Within(loc) else from)
  }

  /** Container lookup that also tells which container answered. */
  function Tagged(lookup: (Obj, string) -> Option<Ctx>): (Obj, string) -> Option<(Obj, Ctx)>
  {
    (c: Obj, n: string) => if lookup(c, n).Some? then Some((c, lookup(c, n).value)) else None
  }

  /** Where traversal of location `loc` from `from` ends, and the caller's
      parent context after it: the first hit, re-pointed, or the default
      traversal of the location itself. */
  function Traversed(cs: seq<(Option<Permission>, Obj)>, name: string, allows: (Obj, Permission) -> bool,
                     lookup: (Obj, string) -> Option<Ctx>, loc: Obj, from: From, fallback: Ctx): (Ctx, From)
  {
    var h := FirstHit(cs, name, allows, Tagged(lookup));
    if h.Some? then Repointed(from, h.value.0, h.value.1, loc) else (fallback, from)
  }

  /** A `Location` and the containers it searches, first first; `id` is
      the location as a traversal object. */
  class Location {
    const id: Obj
    var containers: seq<(Option<Permission>, Obj)>

    constructor (id: Obj)
      ensures this.id == id && containers == []
    {
      this.id := id;
      containers := [];
    }

    /** `addContainer(container, permissionNeeded)`: the container goes in
        front of those already added. */
    method AddContainer(container: Obj, permissionNeeded: Option<Permission>)
      modifies this`containers
      ensures containers == [(permissionNeeded, container)] + old(containers)
    {
      containers := [(permissionNeeded, container)] + containers;
    }

    /** `traverseTo(name, ctx, default)`: the first container that may be
        searched and resolves the name gives the context found; then the
        parent context of the clone made for that container is re-pointed
        at the location when it is at the container (see `Repointed`).
        `from` is `ctx` as that step sees it and `from'` the caller's
        parent context afterwards; `fallback` stands for what
        `traverseDefault` gives for the location itself. */
    method TraverseTo(name: string, from: From, allows: (Obj, Permission) -> bool,
                      lookup: (Obj, string) -> Option<Ctx>, fallback: Ctx) returns (r: Ctx, from': From)
      ensures (r, from') == Traversed(containers, name, allows, lookup, id, from, fallback)
    {
      ghost var look := Tagged(lookup);
      var i := 0;
      while i < |containers|
        invariant i <= |containers|
        invariant FirstHit(containers, name, allows, look) == FirstHit(containers[i..], name, allows, look)
      {
        assert containers[i..][0] == containers[i] && containers[i..][1..] == containers[i + 1..];
        var (perm, cont) := containers[i];
        if perm.Some? && !allows(cont, perm.value) {
          i := i + 1;
          continue;
        }
        var result := lookup(cont, name);
        if result.Some? {
          r, from' := result.value, from;
          match from {
            case Start =>
              if r.up == cont {
                r := r.(up := id);
              }
            case Within(p) =>
              if p == cont {
                from' := Within(id);
              }
          }
          return;
        }
        i := i + 1;
      }
      assert containers[i..] == [];
      r, from' := fallback, from;
    }
  }

  /** A container added last is searched first: when it may be searched
      and resolves the name, traversal gives its context. From a start
      context whose clone is that context's parent, `..` from it then leads
      back to the location; from an ordinary context the context is
      returned as the container gave it, and only the caller's `previous`
      is re-pointed, when it was at the container. */
  lemma AddedLastWins(cs: seq<(Option<Permission>, Obj)>, perm: Option<Permission>, c: Obj, name: string,
                      allows: (Obj, Permission) -> bool, lookup: (Obj, string) -> Option<Ctx>, loc: Obj,
                      from: From, fallback: Ctx)
    requires Permitted((perm, c), allows) && lookup(c, name).Some?
    ensures var r := Traversed([(perm, c)] + cs, name, allows, lookup, loc, from, fallback);
      && r.0.current == lookup(c, name).value.current
      && (from.Start? && lookup(c, name).value.up == c ==> r.0.up == loc)
      && (from.Within? ==> r.0 == lookup(c, name).value)
      && (from.Within? ==> r.1 == if from.prevCurrent == c then Within(loc) else from)
  {
    assert ([(perm, c)] + cs)[0] == (perm, c);
  }

  /** From an ordinary context the `..` of the context found is never
      re-pointed: whatever container answers, the result is its context as
      it was, so one whose parent is at the container keeps it there. */
  lemma WithinKeepsParent(cs: seq<(Option<Permission>, Obj)>, name: string, allows: (Obj, Permission) -> bool,
                          lookup: (Obj, string) -> Option<Ctx>, loc: Obj, p: Obj, fallback: Ctx)
    ensures var h := FirstHit(cs, name, allows, Tagged(lookup));
      Traversed(cs, name, allows, lookup, loc, Within(p), fallback).0 == if h.Some? then h.value.1 else fallback
  {
  }

  /** Traversal from `from` either ends at the default, when no searchable
      container resolves the name, or at the re-pointed context of the
      first searchable container that does. */
  lemma {:induction false} TraversedFound(cs: seq<(Option<Permission>, Obj)>, name: string, allows: (Obj, Permission) -> bool,
                                          lookup: (Obj, string) -> Option<Ctx>, loc: Obj, from: From, fallback: Ctx)
    ensures var r := Traversed(cs, name, allows, lookup, loc, from, fallback);
      ((forall i :: 0 <= i < |cs| ==> !(Permitted(cs[i], allows) && lookup(cs[i].1, name).Some?)) ==> r == (fallback, from)) &&
      ((exists i :: 0 <= i < |cs| && Permitted(cs[i], allows) && lookup(cs[i].1, name).Some?) ==>
        exists i :: 0 <= i < |cs| && Permitted(cs[i], allows) && lookup(cs[i].1, name).Some?
          && r == Repointed(from, cs[i].1, lookup(cs[i].1, name).value, loc)
          && forall j :: 0 <= j < i ==> !(Permitted(cs[j], allows) && lookup(cs[j].1, name).Some?))
  {
    var look := Tagged(lookup);
    FirstHitIsFirst(cs, name, allows, look);
    var h := FirstHit(cs, name, allows, look);
    if h.Some? {
      var i :| 0 <= i < |cs| && Permitted(cs[i], allows) && look(cs[i].1, name) == h
        && forall j :: 0 <= j < i ==> !(Permitted(cs[j], allows) && look(cs[j].1, name).Some?);
      assert lookup(cs[i].1, name).Some?;
      forall j | 0 <= j < i
        ensures !(Permitted(cs[j], allows) && lookup(cs[j].1, name).Some?)
      {
        assert look(cs[j].1, name).Some? == lookup(cs[j].1, name).Some?;
      }
    } else {
      forall i | 0 <= i < |cs|
        ensures !(Permitted(cs[i], allows) && lookup(cs[i].1, name).Some?)
      {
        assert look(cs[i].1, name).Some? == lookup(cs[i].1, name).Some?;
      }
    }
  }

  // ---------------------------------------------------------------------
  // MultiTraverser
  // ---------------------------------------------------------------------

  /** What `MultiTraverser.traverseTo` gives: `NotFound` raised, the
      default, the one result, or a new traverser over all the results. */
  datatype MultiOutcome = NotFound | Default(value: Obj) | One(obj: Obj) | Many(items: seq<Obj>)

  /** The results of the items that resolve `name`, in item order. */
  function Resolved(items: seq<Obj>, name: string, lookup: (Obj, string) -> Option<Obj>): (r: seq<Obj>)
    ensures |r| <= |items|
    decreases |items|
  {
    if items == [] then []
    else (if lookup(items[0], name).Some? then [lookup(items[0], name).value] else [])
         + Resolved(items[1..], name, lookup)
  }

  function Combine(found: seq<Obj>, default: Option<Obj>): MultiOutcome
  {
    if found == [] then (if default.Some? then Default(default.value) else NotFound)
    else if |found| == 1 then One(found[0])
    else Many(found)
  }

  /** `traverseTo(name, ctx, default)`, with `default` None when none is
      given. */
  method MultiTraverse(items: seq<Obj>, name: string, lookup: (Obj, string) -> Option<Obj>, default: Option<Obj>)
    returns (r: MultiOutcome)
    ensures r == Combine(Resolved(items, name, lookup), default)
  {
    var newItems: seq<Obj> := [];
    var i := 0;
    while i < |items|
      invariant i <= |items|
      invariant newItems == Resolved(items[..i], name, lookup)
    {
      ResolvedPrefixStep(items, i, name, lookup);
      var loc := lookup(items[i], name);
      if loc.Some? {
        newItems := newItems + [loc.value];
      }
      i := i + 1;
    }
    assert items[..i] == items;
    if newItems == [] {
      if default.None? {
        return NotFound;
      }
      return Default(default.value);
    }
    if |newItems| == 1 {
      return One(newItems[0]);
    }
    return Many(newItems);
  }

  /** The results are exactly what the items resolve to. */
  lemma {:induction false} ResolvedMembers(items: seq<Obj>, name: string, lookup: (Obj, string) -> Option<Obj>, x: Obj)
    ensures x in Resolved(items, name, lookup) <==> exists i :: 0 <= i < |items| && lookup(items[i], name) == Some(x)
    decreases |items|
  {
    if items != [] {
      ResolvedMembers(items[1..], name, lookup, x);
      if exists i :: 0 <= i < |items[1..]| && lookup(items[1..][i], name) == Some(x) {
        var i :| 0 <= i < |items[1..]| && lookup(items[1..][i], name) == Some(x);
        assert items[i + 1] == items[1..][i];
      }
      if exists i :: 0 <= i < |items| && lookup(items[i], name) == Some(x) {
        var i :| 0 <= i < |items| && lookup(items[i], name) == Some(x);
        if i > 0 {
          assert items[1..][i - 1] == items[i];
        }
      }
    }
  }

  /** Traversing `a` and then `b` resolves what each resolves, in order. */
  lemma {:induction false} ResolvedAppend(a: seq<Obj>, b: seq<Obj>, name: string, lookup: (Obj, string) -> Option<Obj>)
    ensures Resolved(a + b, name, lookup) == Resolved(a, name, lookup) + Resolved(b, name, lookup)
    decreases |a|
  {
    if a == [] {
      assert a + b == b;
    } else {
      var h := if lookup(a[0], name).Some? then [lookup(a[0], name).value] else [];
      assert (a + b)[0] == a[0] && (a + b)[1..] == a[1..] + b;
      assert Resolved(a + b, name, lookup) == h + Resolved(a[1..] + b, name, lookup);
      ResolvedAppend(a[1..], b, name, lookup);
      assert Resolved(a, name, lookup) == h + Resolved(a[1..], name, lookup);
    }
  }

  /** One more item of the prefix adds what that item resolves to. */
  lemma ResolvedPrefixStep(items: seq<Obj>, i: nat, name: string, lookup: (Obj, string) -> Option<Obj>)
    requires i < |items|
    ensures Resolved(items[..i + 1], name, lookup)
      == Resolved(items[..i], name, lookup) + (if lookup(items[i], name).Some? then [lookup(items[i], name).value] else [])
  {
    assert items[..i + 1] == items[..i] + [items[i]];
    ResolvedAppend(items[..i], [items[i]], name, lookup);
    assert [items[i]][1..] == [];
  }

  /** No item resolving is `NotFound` or the default; one is its result;
      several give a traverser over all of them, which resolves a further
      name as the results do. */
  lemma MultiOutcomes(items: seq<Obj>, name: string, lookup: (Obj, string) -> Option<Obj>, default: Option<Obj>)
    ensures var found := Resolved(items, name, lookup);
      var r := Combine(found, default);
      && (r == NotFound <==> found == [] && default.None?)
      && (r.Default? <==> found == [] && default.Some?)
      && (r.One? <==> |found| == 1)
      && (r.One? ==> exists i :: 0 <= i < |items| && lookup(items[i], name) == Some(r.obj))
      && (r.Many? ==> |r.items| >= 2 && forall x :: x in r.items <==> exists i :: 0 <= i < |items| && lookup(items[i], name) == Some(x))
  {
    var found := Resolved(items, name, lookup);
    if |found| == 1 {
      ResolvedMembers(items, name, lookup, found[0]);
    }
    forall x: Obj ensures x in found <==> exists i :: 0 <= i < |items| && lookup(items[i], name) == Some(x) {
      ResolvedMembers(items, name, lookup, x);
    }
  }
}
