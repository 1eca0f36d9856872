/** The site-map handlers of `peak/web/sitemaps.py`. While a site map is
    read, each open element has a data dictionary whose `previous` entry is
    its parent element's dictionary; the document's own dictionary has
    none. Here the open dictionaries are a stack, the document's first, so
    the `previous` of the dictionary at index `i` is the one at `i - 1`. */
module SiteMaps {
  import opened Base
  import opened Places
  import opened Security
  import ConflictManager
  import Sox

  /** The key of a view setting: the content type (none outside a
      `content` block) and the view name. */
  type SettingKey = (Option<string>, string)
  type Settings = ConflictManager.ConflictManager<SettingKey, string, nat>

  /** What the dictionaries hold: attribute values and maps, the location
      built for an element, the container registrations queued on it, a
      permission, an include path, the conflict manager, a container
      object, a flag, or nothing. */
  datatype Val = Str(s: string) | Attrs(m: map<string, string>) | Loc(loc: Location)
               | Stack(entries: seq<(Obj, Permission)>) | Perm(p: Permission) | Path(path: seq<string>)
               | Manager(cm: Settings) | Item(obj: Obj) | Flag | NoValue

  type Frame = map<string, Val>

  /** The ways a site-map element is refused (`parser.err`), and the
      lookups on missing entries that fail. */
  datatype SiteMapError = NotExactlyOne(names: seq<string>) | RootNamed | UnnamedChild | NotDirectlyInside
                        | ContainerNeedsOne | ConflictingSettings(key: SettingKey) | NoComponent | NoStack
                        | BadAttributes(error: Sox.AttrError)

  /** The attributes a `location` element may carry; none is required. */
  const LocOptional: seq<string> := ["name", "class", "id", "permission", "extends", "config"]

  /** The attributes a `container` element may carry; none is required. */
  const ContainerOptional: seq<string> := ["lookup", "object", "permission"]

  /** `evalObject(data, text)` for a permission attribute: the object the
      text names. */
  type Evaluator = string -> Permission

  // ---------------------------------------------------------------------
  // acquire and findComponentData
  // ---------------------------------------------------------------------

  /** The nearest dictionary, from index `i` down to the document's, that
      holds `key`. */
  function Nearest(frames: seq<Frame>, i: int, key: string): (r: Option<nat>)
    requires i < |frames|
    ensures r.Some? ==>
      r.value <= i && key in frames[r.value] && forall k :: r.value < k <= i ==> key !in frames[k]
    ensures r.None? ==> forall k :: 0 <= k <= i ==> key !in frames[k]
    decreases i + 1
  {
    if i < 0 then None
    else if key in frames[i] then Some(i)
    else Nearest(frames, i - 1, key)
  }

  /** `acquire(data, key, default)` for the dictionary at index `i`. */
  function AcquireAt(frames: seq<Frame>, i: int, key: string, default: Val): Val
    requires i < |frames|
  {
    var j := Nearest(frames, i, key);
    if j.Some? then frames[j.value][key] else default
  }

  /** What `acquire` finds: the dictionary's own value for the key, the
      default when no dictionary out to the document's holds it, and
      otherwise a value some enclosing dictionary holds. */
  lemma AcquireAtFound(frames: seq<Frame>, i: int, key: string, default: Val)
    requires i < |frames|
    ensures var r := AcquireAt(frames, i, key, default);
      && (0 <= i && key in frames[i] ==> r == frames[i][key])
      && ((forall k :: 0 <= k <= i ==> key !in frames[k]) ==> r == default)
      && (r != default ==> exists k :: 0 <= k <= i && key in frames[k] && frames[k][key] == r)
  {
  }

  /** The acquired value is that of the nearest dictionary holding the
      key, and the default exactly when none does. */
  lemma AcquireNearest(frames: seq<Frame>, i: int, key: string, default: Val, j: nat)
    requires j <= i < |frames| && key in frames[j] && forall k :: j < k <= i ==> key !in frames[k]
    ensures AcquireAt(frames, i, key, default) == frames[j][key]
  {
  }

  /** `findComponentData(data)`: the nearest enclosing dictionary that
      holds a component; none for the document's own dictionary (which has
      no `previous`) or when no enclosing one holds a component. */
  function FindComponentData(frames: seq<Frame>, i: nat): (r: Option<nat>)
    requires i < |frames|
    ensures r.Some? ==> r.value < i && "sm.component" in frames[r.value]
  {
    if i == 0 then None else Nearest(frames, i - 1, "sm.component")
  }

  /** `acquirePermission(data, attrs)`: a `permission` attribute is
      evaluated and stored; without one the dictionary is unchanged. */
  function WithPermission(data: Frame, attrs: map<string, string>, evalObject: Evaluator): (r: Frame)
    ensures "permission" in attrs ==> r == data["sm.permission" := Perm(evalObject(attrs["permission"]))]
    ensures "permission" !in attrs ==> r == data
  {
    if "permission" in attrs then data["sm.permission" := Perm(evalObject(attrs["permission"]))] else data
  }

  function PermissionOf(v: Val): Permission
  {
    if v.Perm? then v.p else Anybody
  }

  /** The include path of the dictionary at index `i`. */
  function IncludePath(frames: seq<Frame>, i: int): seq<string>
    requires i < |frames|
  {
    var v := AcquireAt(frames, i, "sm_include_path", Path([]));
    if v.Path? then v.path else []
  }

  // ---------------------------------------------------------------------
  // choose
  // ---------------------------------------------------------------------

  /** How many of `names` are present in `attrs`, repeats counted. */
  function Count(names: seq<string>, attrs: map<string, string>): nat
    decreases |names|
  {
    if names == [] then 0 else (if names[0] in attrs then 1 else 0) + Count(names[1..], attrs)
  }

  /** The scan of `choose` over `names`, with the pair found so far. */
  function ChooseFrom(names: seq<string>, attrs: map<string, string>, found: Option<(string, string)>, all: seq<string>)
    : Result<(string, string), SiteMapError>
    decreases |names|
  {
    if names == [] then (if found.Some? then Ok(found.value) else Err(NotExactlyOne(all)))
    else if names[0] in attrs then
      if found.Some? then Err(NotExactlyOne(all))
      else ChooseFrom(names[1..], attrs, Some((names[0], attrs[names[0]])), all)
    else ChooseFrom(names[1..], attrs, found, all)
  }

  /** `choose(parser, names, attrs)`. */
  method Choose(names: seq<string>, attrs: map<string, string>) returns (r: Result<(string, string), SiteMapError>)
    ensures r == ChooseFrom(names, attrs, None, names)
  {
    var found: Option<(string, string)> := None;
    var i := 0;
    while i < |names|
      invariant i <= |names|
      invariant ChooseFrom(names, attrs, None, names) == ChooseFrom(names[i..], attrs, found, names)
    {
      assert names[i..][0] == names[i] && names[i..][1..] == names[i + 1..];
      var name := names[i];
      if name in attrs {
        if found.Some? {
          return Err(NotExactlyOne(names));
        }
        found := Some((name, attrs[name]));
      }
      i := i + 1;
    }
    assert names[i..] == [];
    if found.Some? {
      return Ok(found.value);
    }
    return Err(NotExactlyOne(names));
  }

  /** `choose` succeeds exactly when one listed name is present, and then
      gives that name with its value. */
  lemma {:induction false} ChooseExactlyOne(names: seq<string>, attrs: map<string, string>, found: Option<(string, string)>, all: seq<string>)
    ensures ChooseFrom(names, attrs, found, all).Ok? <==> Count(names, attrs) == (if found.Some? then 0 else 1)
    ensures ChooseFrom(names, attrs, found, all).Err? ==> ChooseFrom(names, attrs, found, all) == Err(NotExactlyOne(all))
    ensures found.Some? && ChooseFrom(names, attrs, found, all).Ok? ==> ChooseFrom(names, attrs, found, all).value == found.value
    ensures found.None? && ChooseFrom(names, attrs, found, all).Ok? ==>
      var v := ChooseFrom(names, attrs, found, all).value;
      exists i :: 0 <= i < |names| && names[i] in attrs && v == (names[i], attrs[names[i]])
    decreases |names|
  {
    if names != [] {
      var next := if names[0] in attrs && found.None? then Some((names[0], attrs[names[0]])) else found;
      ChooseExactlyOne(names[1..], attrs, next, all);
      var r := ChooseFrom(names, attrs, found, all);
      if found.None? && r.Ok? && names[0] !in attrs {
        var i :| 0 <= i < |names[1..]| && names[1..][i] in attrs && r.value == (names[1..][i], attrs[names[1..][i]]);
        assert names[i + 1] == names[1..][i];
      }
    }
  }

  /** The three cases of the module's tests: no name present, one, and
      two. */
  lemma ChooseExamples()
    ensures ChooseFrom(["a", "b"], map[], None, ["a", "b"]) == Err(NotExactlyOne(["a", "b"]))
    ensures ChooseFrom(["a", "b"], map["b" := "1"], None, ["a", "b"]) == Ok(("b", "1"))
    ensures ChooseFrom(["a", "b"], map["a" := "1", "b" := "2"], None, ["a", "b"]) == Err(NotExactlyOne(["a", "b"]))
  {
    assert ["a", "b"][1..] == ["b"];
    assert "a" != "b" by { assert "a"[0] != "b"[0]; }
  }

  // ---------------------------------------------------------------------
  // startLocation
  // ---------------------------------------------------------------------

  /** What `makeLocation` is called with: the parent component, the name
      and the attributes (with the `class` an including element gives). */
  datatype Plan = Plan(parent: Val, name: Option<string>, attrs: map<string, string>)

  /** The dictionary of a started location: its conflict manager (unless
      it has one), the location built, and an empty container queue. */
  function Started(data: Frame, loc: Location, cm: Settings): Frame
  {
    (if "sm_conflict_manager" in data then data else data["sm_conflict_manager" := Manager(cm)])
      ["sm.component" := Loc(loc)]["sm_container_stack" := Stack([])]
  }

  /** `startLocation` for the innermost dictionary: its new contents and
      the call `makeLocation` receives, or the error. The attributes are
      validated first; `loc` is the location `makeLocation` builds and
      `cm` the conflict manager a new one would be. */
  function LocationStarted(frames: seq<Frame>, attributes: seq<(string, string)>, evalObject: Evaluator, loc: Location, cm: Settings)
    : (r: (Frame, Result<Plan, SiteMapError>))
    requires frames != []
    ensures (r.1.Err? && r.1.error.BadAttributes?) <==> Sox.ValidatedAttributes(attributes, [], LocOptional).Err?
    ensures r.1.Err? && r.1.error.BadAttributes? ==> r.0 == frames[|frames| - 1]
  {
    match Sox.ValidatedAttributes(attributes, [], LocOptional)
    case Err(e) => (frames[|frames| - 1], Err(BadAttributes(e)))
    case Ok(attrs) => StartValidated(frames, attrs, evalObject, loc, cm)
  }

  /** A location carrying an attribute other than those listed is
      refused before anything changes; an accepted one carried only
      listed attributes. */
  lemma LocationAttributes(frames: seq<Frame>, attributes: seq<(string, string)>, evalObject: Evaluator, loc: Location, cm: Settings)
    requires frames != []
    ensures var r := LocationStarted(frames, attributes, evalObject, loc, cm);
      && (r.1.Ok? ==> forall k :: k in Sox.Unprefixed(attributes) ==> k in LocOptional)
      && ((exists k :: k in Sox.Unprefixed(attributes) && k !in LocOptional) ==>
            r.1.Err? && r.1.error.BadAttributes? && r.0 == frames[|frames| - 1])
  {
    var v := Sox.ValidatedAttributes(attributes, [], LocOptional);
    if v.Ok? {
      assert forall k :: k in Sox.Unprefixed(attributes) ==> k in [] || k in LocOptional;
    }
  }

  /** `startLocation` once its attributes `attrs` are validated. */
  function StartValidated(frames: seq<Frame>, attrs: map<string, string>, evalObject: Evaluator, loc: Location, cm: Settings)
    : (r: (Frame, Result<Plan, SiteMapError>))
    requires frames != []
  {
    var n := |frames| - 1;
    var data := WithPermission(frames[n], attrs, evalObject);
    var prev := FindComponentData(frames, n);
    var name := if "name" in attrs then Some(attrs["name"]) else None;
    if prev.None? then (data, Err(NoComponent))
    else if prev.value != n - 1 then (data, Err(NotDirectlyInside))
    else if prev.value == 0 then
      if name.Some? then (data, Err(RootNamed))
      else
        var root := frames[0];
        var incl := if "sm_included_from" in root && root["sm_included_from"].Attrs? then Some(root["sm_included_from"].m) else None;
        var name' := if incl.Some? && "name" in incl.value then Some(incl.value["name"]) else None;
        var attrs' := if incl.Some? && "class" in incl.value then attrs["class" := incl.value["class"]] else attrs;
        var data' := if "sm_included_from" in root && "sm_conflict_manager" in root
                     then data["sm_conflict_manager" := root["sm_conflict_manager"]]["no_resolve" := Flag]
                     else data;
        (Started(data', loc, cm), Ok(Plan(frames[0]["sm.component"], name', attrs')))
    else if name.None? || name.value == "" then (data, Err(UnnamedChild))
    else (Started(data, loc, cm), Ok(Plan(frames[prev.value]["sm.component"], name, attrs)))
  }

  /** The naming rules of locations: a location must sit directly inside
      the element holding the enclosing component; the root location has
      no name of its own; every other location has a non-empty one. */
  lemma LocationNaming(frames: seq<Frame>, attrs: map<string, string>, evalObject: Evaluator, loc: Location, cm: Settings)
    requires frames != []
    ensures var n := |frames| - 1; var p := FindComponentData(frames, n);
      var r := StartValidated(frames, attrs, evalObject, loc, cm).1;
      && (p.None? ==> r == Err(NoComponent))
      && (p.Some? && p.value != n - 1 ==> r == Err(NotDirectlyInside))
      && (p == Some(0) && n == 1 && "name" in attrs ==> r == Err(RootNamed))
      && (p.Some? && p.value > 0 && p.value == n - 1 && ("name" !in attrs || attrs["name"] == "") ==> r == Err(UnnamedChild))
      && (r.Ok? <==>
            p.Some? && p.value == n - 1 && (if p.value == 0 then "name" !in attrs else "name" in attrs && attrs["name"] != ""))
      && (r.Ok? && p.value > 0 ==> r.value.name == Some(attrs["name"]))
  {
  }

  /** A started location holds its component and an empty container
      queue, and keeps every other entry it had, with the permission its
      attributes give. */
  lemma StartedEntries(frames: seq<Frame>, attrs: map<string, string>, evalObject: Evaluator, loc: Location, cm: Settings)
    requires frames != [] && StartValidated(frames, attrs, evalObject, loc, cm).1.Ok?
    ensures var d := StartValidated(frames, attrs, evalObject, loc, cm).0;
      var n := |frames| - 1;
      && d["sm.component"] == Loc(loc) && d["sm_container_stack"] == Stack([])
      && "sm_conflict_manager" in d
      && ("permission" in attrs ==> d["sm.permission"] == Perm(evalObject(attrs["permission"])))
      && forall k :: k in frames[n] && k !in {"sm.component", "sm_container_stack", "sm_conflict_manager", "sm.permission", "no_resolve"}
           ==> k in d && d[k] == frames[n][k]
  {
  }

  // ---------------------------------------------------------------------
  // doContainer and finishComponent
  // ---------------------------------------------------------------------

  /** `doContainer` for the innermost dictionary, `container` being the
      object the `object` or `lookup` attribute evaluates to: once the
      attributes are validated, the queue of the enclosing location gets
      the container with the permission in force. */
  function ContainerAdded(frames: seq<Frame>, attributes: seq<(string, string)>, evalObject: Evaluator, container: Obj)
    : (r: (seq<Frame>, Result<(), SiteMapError>))
    requires frames != []
    ensures |r.0| == |frames|
  {
    match Sox.ValidatedAttributes(attributes, [], ContainerOptional)
    case Err(e) => (frames, Err(BadAttributes(e)))
    case Ok(attrs) => ContainerValidated(frames, attrs, evalObject, container)
  }

  /** A container carrying an attribute other than `lookup`, `object` and
      `permission` is refused before anything changes. */
  lemma ContainerAttributesListed(frames: seq<Frame>, attributes: seq<(string, string)>, evalObject: Evaluator, container: Obj)
    requires frames != []
    ensures var r := ContainerAdded(frames, attributes, evalObject, container);
      && (r.1.Ok? ==> forall k :: k in Sox.Unprefixed(attributes) ==> k in ContainerOptional)
      && ((exists k :: k in Sox.Unprefixed(attributes) && k !in ContainerOptional) ==>
            r.1.Err? && r.1.error.BadAttributes? && r.0 == frames)
  {
    var v := Sox.ValidatedAttributes(attributes, [], ContainerOptional);
    if v.Ok? {
      assert forall k :: k in Sox.Unprefixed(attributes) ==> k in [] || k in ContainerOptional;
    }
  }

  /** `doContainer` once its attributes `attrs` are validated. */
  function ContainerValidated(frames: seq<Frame>, attrs: map<string, string>, evalObject: Evaluator, container: Obj)
    : (r: (seq<Frame>, Result<(), SiteMapError>))
    requires frames != []
    ensures |r.0| == |frames|
  {
    var n := |frames| - 1;
    var prev := FindComponentData(frames, n);
    if prev.None? then (frames, Err(NoComponent))
    else
      var p := prev.value;
      var fs := frames[n := WithPermission(frames[n], attrs, evalObject)];
      var perm := PermissionOf(AcquireAt(fs, n, "sm.permission", Perm(Anybody)));
      if ("object" in attrs) == ("lookup" in attrs) then (fs, Err(ContainerNeedsOne))
      else if "sm_container_stack" !in fs[p] || !fs[p]["sm_container_stack"].Stack? then (fs, Err(NoStack))
      else
        var queued := fs[p]["sm_container_stack"].entries + [(container, perm)];
        var fs' := fs[p := fs[p]["sm_container_stack" := Stack(queued)]];
        (fs'[n := fs'[n]["container" := Item(container)]], Ok(()))
  }

  /** A container needs exactly one of `object` and `lookup`; when it has
      one, it joins the end of its location's queue with the permission in
      force. */
  lemma ContainerAttributes(frames: seq<Frame>, attrs: map<string, string>, evalObject: Evaluator, container: Obj)
    requires frames != []
    ensures var n := |frames| - 1; var p := FindComponentData(frames, n);
      var r := ContainerValidated(frames, attrs, evalObject, container);
      && (p.Some? && ("object" in attrs) == ("lookup" in attrs) ==> r.1 == Err(ContainerNeedsOne))
      && (r.1.Ok? ==>
            ("object" in attrs) != ("lookup" in attrs)
            && "sm_container_stack" in frames[p.value] && frames[p.value]["sm_container_stack"].Stack?
            && r.0[p.value]["sm_container_stack"].entries
               == frames[p.value]["sm_container_stack"].entries
                  + [(container, PermissionOf(AcquireAt(frames[n := WithPermission(frames[n], attrs, evalObject)], n, "sm.permission", Perm(Anybody))))])
  {
  }

  /** The containers a queue registers, in queue order. */
  function AsContainers(entries: seq<(Obj, Permission)>): (r: seq<(Option<Permission>, Obj)>)
    ensures |r| == |entries|
    ensures forall i :: 0 <= i < |entries| ==> r[i] == (Some(entries[i].1), entries[i].0)
  {
    if entries == [] then [] else [(Some(entries[0].1), entries[0].0)] + AsContainers(entries[1..])
  }

  /** Once the queue is registered, a location searches its containers in
      document order, before those it already had: the first queued
      container that may be searched and resolves the name wins. */
  lemma {:induction false} QueueOrderSearched(entries: seq<(Obj, Permission)>, before: seq<(Option<Permission>, Obj)>, name: string,
                                              allows: (Obj, Permission) -> bool, lookup: (Obj, string) -> Option<Ctx>, loc: Obj,
                                              from: From, fallback: Ctx)
    ensures var h := FirstHit(AsContainers(entries), name, allows, Tagged(lookup));
      Traversed(AsContainers(entries) + before, name, allows, lookup, loc, from, fallback)
        == if h.Some? then Repointed(from, h.value.0, h.value.1, loc) else Traversed(before, name, allows, lookup, loc, from, fallback)
  {
    FirstHitAppend(AsContainers(entries), before, name, allows, Tagged(lookup));
  }

  /** Two containers resolving the same name: the one declared first is
      found, as in the module's tests. */
  lemma ContainerSequence(c1: Obj, c2: Obj, name: string, allows: (Obj, Permission) -> bool,
                          lookup: (Obj, string) -> Option<Ctx>, loc: Obj, from: From, fallback: Ctx)
    requires allows(c1, Anybody) && lookup(c1, name).Some? && lookup(c2, name).Some?
    ensures Traversed(AsContainers([(c1, Anybody), (c2, Anybody)]), name, allows, lookup, loc, from, fallback)
      == Repointed(from, c1, lookup(c1, name).value, loc)
  {
    var cs := AsContainers([(c1, Anybody), (c2, Anybody)]);
    assert cs[0] == (Some(Anybody), c1);
  }

  /** The dictionaries of a site map being read. */
  class SiteMapReader {
    var frames: seq<Frame>

    constructor (frames: seq<Frame>)
      requires frames != []
      ensures this.frames == frames
    {
      this.frames := frames;
    }

    /** `acquire(data, key, default)` for the innermost dictionary. */
    method Acquire(key: string, default: Val) returns (v: Val)
      requires frames != []
      ensures v == AcquireAt(frames, |frames| - 1, key, default)
    {
      var i := |frames| - 1;
      while i >= 0
        invariant -1 <= i < |frames|
        invariant Nearest(frames, |frames| - 1, key) == Nearest(frames, i, key)
        decreases i + 1
      {
        if key in frames[i] {
          return frames[i][key];
        }
        i := i - 1;
      }
      return default;
    }

    /** `startLocation(parser, data)` for the innermost dictionary. */
    method StartLocation(attributes: seq<(string, string)>, evalObject: Evaluator, loc: Location, cm: Settings)
      returns (r: Result<Plan, SiteMapError>)
      requires frames != []
      modifies this`frames
      ensures r == LocationStarted(old(frames), attributes, evalObject, loc, cm).1
      ensures frames == old(frames)[|old(frames)| - 1 := LocationStarted(old(frames), attributes, evalObject, loc, cm).0]
    {
      var v := Sox.ValidatedAttributes(attributes, [], LocOptional);
      if v.Err? {
        assert frames[|frames| - 1 := frames[|frames| - 1]] == frames;
        return Err(BadAttributes(v.error));
      }
      r := Start(v.value, evalObject, loc, cm);
    }

    /** The rest of `startLocation`, once its attributes `attrs` are
        validated. */
    method Start(attrs: map<string, string>, evalObject: Evaluator, loc: Location, cm: Settings)
      returns (r: Result<Plan, SiteMapError>)
      requires frames != []
      modifies this`frames
      ensures r == StartValidated(old(frames), attrs, evalObject, loc, cm).1
      ensures frames == old(frames)[|old(frames)| - 1 := StartValidated(old(frames), attrs, evalObject, loc, cm).0]
    {
      var n := |frames| - 1;
      var frames0 := frames;
      frames := frames[n := WithPermission(frames[n], attrs, evalObject)];
      var prev := FindComponent(frames0);
      var name := if "name" in attrs then Some(attrs["name"]) else None;
      if prev.None? {
        return Err(NoComponent);
      }
      if prev.value != n - 1 {
        return Err(NotDirectlyInside);
      }
      var data := frames[n];
      var plan := Plan(frames0[prev.value]["sm.component"], name, attrs);
      if prev.value == 0 {
        if name.Some? {
          return Err(RootNamed);
        }
        var root := frames0[0];
        if "sm_included_from" in root && root["sm_included_from"].Attrs? {
          var incl := root["sm_included_from"].m;
          plan := plan.(name := if "name" in incl then Some(incl["name"]) else None);
          if "class" in incl {
            plan := plan.(attrs := attrs["class" := incl["class"]]);
          }
        }
        if "sm_included_from" in root && "sm_conflict_manager" in root {
          data := data["sm_conflict_manager" := root["sm_conflict_manager"]]["no_resolve" := Flag];
        }
      } else if name.None? || name.value == "" {
        return Err(UnnamedChild);
      }
      if "sm_conflict_manager" !in data {
        data := data["sm_conflict_manager" := Manager(cm)];
      }
      data := data["sm.component" := Loc(loc)]["sm_container_stack" := Stack([])];
      frames := frames[n := data];
      return Ok(plan);
    }

    /** `findComponentData(data)` for the innermost of the dictionaries
        `fs`. */
    static method FindComponent(fs: seq<Frame>) returns (p: Option<nat>)
      requires fs != []
      ensures p == FindComponentData(fs, |fs| - 1)
    {
      var i := |fs| - 1;
      if i == 0 {
        return None;
      }
      i := i - 1;
      while "sm.component" !in fs[i]
        invariant 0 <= i < |fs| - 1
        invariant Nearest(fs, |fs| - 2, "sm.component") == Nearest(fs, i, "sm.component")
        decreases i
      {
        if i == 0 {
          return None;
        }
        i := i - 1;
      }
      return Some(i);
    }

    /** `doContainer(parser, data)` for the innermost dictionary. */
    method DoContainer(attributes: seq<(string, string)>, evalObject: Evaluator, container: Obj) returns (r: Result<(), SiteMapError>)
      requires frames != []
      modifies this`frames
      ensures (frames, r) == ContainerAdded(old(frames), attributes, evalObject, container)
    {
      var v := Sox.ValidatedAttributes(attributes, [], ContainerOptional);
      if v.Err? {
        return Err(BadAttributes(v.error));
      }
      r := QueueContainer(v.value, evalObject, container);
    }

    /** The rest of `doContainer`, once its attributes `attrs` are
        validated. */
    method QueueContainer(attrs: map<string, string>, evalObject: Evaluator, container: Obj) returns (r: Result<(), SiteMapError>)
      requires frames != []
      modifies this`frames
      ensures (frames, r) == ContainerValidated(old(frames), attrs, evalObject, container)
    {
      var n := |frames| - 1;
      var prev := FindComponent(frames);
      if prev.None? {
        return Err(NoComponent);
      }
      var p := prev.value;
      frames := frames[n := WithPermission(frames[n], attrs, evalObject)];
      var pv := Acquire("sm.permission", Perm(Anybody));
      var perm := PermissionOf(pv);
      if ("object" in attrs) == ("lookup" in attrs) {
        return Err(ContainerNeedsOne);
      }
      if "sm_container_stack" !in frames[p] || !frames[p]["sm_container_stack"].Stack? {
        return Err(NoStack);
      }
      var queued := frames[p]["sm_container_stack"].entries + [(container, perm)];
      frames := frames[p := frames[p]["sm_container_stack" := Stack(queued)]];
      frames := frames[n := frames[n]["container" := Item(container)]];
      return Ok(());
    }

    /** `finishComponent(parser, data)` for the innermost dictionary, whose
        component is `loc`: the queued registrations are popped last
        first, so the containers end up in document order in front of
        those the location had. `resolve` tells whether the conflict
        manager's settings are then applied. */
    method FinishComponent(loc: Location) returns (r: Result<Option<Val>, SiteMapError>, resolve: bool)
      requires frames != []
      requires "sm.component" in frames[|frames| - 1] ==> frames[|frames| - 1]["sm.component"] == Loc(loc)
      modifies this`frames, loc`containers
      ensures var n := |old(frames)| - 1; var d := old(frames)[n];
        && ("sm.component" !in d ==> r == Ok(None) && !resolve && frames == old(frames) && loc.containers == old(loc.containers))
        && ("sm.component" in d && ("sm_container_stack" !in d || !d["sm_container_stack"].Stack?) ==>
              r == Err(NoStack) && frames == old(frames) && loc.containers == old(loc.containers))
        && ("sm.component" in d && "sm_container_stack" in d && d["sm_container_stack"].Stack? ==>
              && r == Ok(Some(Loc(loc)))
              && loc.containers == AsContainers(d["sm_container_stack"].entries) + old(loc.containers)
              && frames == old(frames)[n := d["sm_container_stack" := Stack([])]]
              && resolve == (n != 0 && "no_resolve" !in d))
    {
      var n := |frames| - 1;
      var d := frames[n];
      if "sm.component" !in d {
        return Ok(None), false;
      }
      if "sm_container_stack" !in d || !d["sm_container_stack"].Stack? {
        return Err(NoStack), false;
      }
      Register(loc, d["sm_container_stack"].entries);
      frames := frames[n := d["sm_container_stack" := Stack([])]];
      return Ok(Some(d["sm.component"])), n != 0 && "no_resolve" !in d;
    }

    /** Pops the queued registrations `stack`, last first, into `loc`. */
    static method Register(loc: Location, stack: seq<(Obj, Permission)>)
      modifies loc`containers
      ensures loc.containers == AsContainers(stack) + old(loc.containers)
    {
      var rest := stack;
      while rest != []
        invariant AsContainers(stack) + old(loc.containers) == AsContainers(rest) + loc.containers
        decreases |rest|
      {
        var last := rest[|rest| - 1];
        var front := rest[..|rest| - 1];
        assert front + [last] == rest;
        AsContainersSnoc(front, last);
        ConcatAssoc(AsContainers(front), [(Some(last.1), last.0)], loc.containers);
        loc.AddContainer(last.0, Some(last.1));
        rest := front;
      }
      assert AsContainers(rest) == [];
    }

    /** `addSetting(parser, data, key, setting)` for the innermost
        dictionary, whose conflict manager is `cm`: a setting that
        conflicts with one already made for the key is refused. */
    method AddSetting(cm: Settings, key: SettingKey, setting: nat) returns (r: Result<(), SiteMapError>)
      requires frames != [] && AcquireAt(frames, |frames| - 1, "sm_conflict_manager", NoValue) == Manager(cm)
      modifies cm
      ensures var a := ConflictManager.Assign(old(cm.data), key, IncludePath(frames, |frames| - 1), setting);
        && (a.Ok? ==> r == Ok(()) && cm.data == a.value)
        && (a.Err? ==> r == Err(ConflictingSettings(key)) && cm.data == old(cm.data))
    {
      var pv := Acquire("sm_include_path", Path([]));
      var path := if pv.Path? then pv.path else [];
      var res := cm.Set(key, path, setting);
      if res.Err? {
        return Err(ConflictingSettings(key));
      }
      return Ok(());
    }
  }

  lemma {:induction false} AsContainersSnoc(entries: seq<(Obj, Permission)>, e: (Obj, Permission))
    ensures AsContainers(entries + [e]) == AsContainers(entries) + [(Some(e.1), e.0)]
  {
    var l := AsContainers(entries + [e]);
    var r := AsContainers(entries) + [(Some(e.1), e.0)];
    assert |l| == |r|;
    forall i | 0 <= i < |l|
      ensures l[i] == r[i]
    {
      if i < |entries| {
        assert (entries + [e])[i] == entries[i];
      }
    }
  }

  /** Two settings for one key from the same include path conflict: the
      first is made and the second refused. */
  lemma SameSettingConflicts(data: map<SettingKey, ConflictManager.Entry<string, nat>>, key: SettingKey, path: seq<string>, s1: nat, s2: nat)
    requires key !in data
    ensures ConflictManager.Assign(data, key, path, s1).Ok?
    ensures ConflictManager.Assign(ConflictManager.Assign(data, key, path, s1).value, key, path, s2) == Err(ConflictManager.KeyError)
  {
    ConflictManager.AssignConflicts(ConflictManager.Assign(data, key, path, s1).value, key, path, s2);
  }
}
