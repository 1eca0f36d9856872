/** The traversal context of `peak/web/environ.py`: relative URLs, the
    `@@` and `++ns++` name syntax, name traversal, path shifting, and the
    construction and cloning of contexts with their delegated settings. */
module Environ {
  import opened Base

  // ---------------------------------------------------------------------
  // relativeURL
  // ---------------------------------------------------------------------

  /** How many leading segments `b` and `u` share (the `zip` loop). */
  function Same(b: seq<string>, u: seq<string>): (n: nat)
    ensures n <= |b| && n <= |u|
    ensures forall i :: 0 <= i < n ==> b[i] == u[i]
    ensures n < |b| && n < |u| ==> b[n] != u[n]
  {
    if b == [] || u == [] || b[0] != u[0] then 0 else 1 + Same(b[1..], u[1..])
  }

  /** `[x] * n`; a negative count gives the empty list. */
  function Repeat(x: string, n: int): (r: seq<string>)
    ensures |r| == if n < 0 then 0 else n
    ensures forall i :: 0 <= i < |r| ==> r[i] == x
    decreases n
  {
    if n <= 0 then [] else [x] + Repeat(x, n - 1)
  }

  /** The segments of the relative URL, for `same` shared segments. */
  function RelParts(bp: seq<string>, up: seq<string>, same: nat): seq<string>
    requires same <= |bp| && same <= |up| && |bp| >= 1
  {
    (if |bp| == same then [bp[|bp| - 1]] else []) + Repeat("..", |bp| - same - 1) + up[same..]
  }

  /** `relativeURL(base, url)`. */
  function Relative(base: string, url: string): (r: string)
    ensures Same(Split(base, '/'), Split(url, '/')) < 3 ==> r == url
    ensures Same(Split(base, '/'), Split(url, '/')) >= 3 ==> r != []
  {
    var bp := Split(base, '/');
    var up := Split(url, '/');
    var same := Same(bp, up);
    if same < 3 then url
    else
      var j := Join(RelParts(bp, up, same), '/');
      if j == [] then "./" else j
  }

  /** `relativeURL`, with its counting loop. */
  method RelativeURL(base: string, url: string) returns (r: string)
    ensures r == Relative(base, url)
  {
    var bp := Split(base, '/');
    var up := Split(url, '/');
    var same := 0;
    while same < |bp| && same < |up| && bp[same] == up[same]
      invariant same <= |bp| && same <= |up|
      invariant Same(bp, up) == same + Same(bp[same..], up[same..])
    {
      assert bp[same..][1..] == bp[same + 1..] && up[same..][1..] == up[same + 1..];
      same := same + 1;
    }
    if same < 3 {
      return url;
    }
    var j := Join(RelParts(bp, up, same), '/');
    r := if j == [] then "./" else j;
  }

  /** How many directories the relative URL climbs with `..`. */
  function Ups(bp: seq<string>, same: nat): nat
  {
    if |bp| <= same then 0 else |bp| - same - 1
  }

  /** The segments the relative URL follows after climbing. */
  function Tail(bp: seq<string>, up: seq<string>, same: nat): seq<string>
    requires same <= |up| && |bp| >= 1
  {
    if |bp| == same then [bp[|bp| - 1]] + up[same..] else up[same..]
  }

  /** A URL sharing fewer than three segments with the base (another
      scheme or host) is returned unchanged. Otherwise the result climbs
      `Ups` directories from the base's directory with `..` and then
      follows `Tail`, which ends at `url`. */
  lemma RelativeResolves(base: string, url: string)
    ensures Same(Split(base, '/'), Split(url, '/')) < 3 ==> Relative(base, url) == url
    ensures Same(Split(base, '/'), Split(url, '/')) >= 3 ==>
      var bp := Split(base, '/'); var up := Split(url, '/'); var same := Same(bp, up);
      && RelParts(bp, up, same) == Repeat("..", Ups(bp, same)) + Tail(bp, up, same)
      && bp[..|bp| - 1 - Ups(bp, same)] + Tail(bp, up, same) == up
  {
    var bp := Split(base, '/');
    var up := Split(url, '/');
    var same := Same(bp, up);
    if same >= 3 {
      assert bp[..same] == up[..same];
      RelPartsClimb(bp, up, same);
    }
  }

  /** Splitting a relative result at `/` gives back its segments (unless
      it is the `./` that stands for no segment). */
  lemma RelativeSplits(base: string, url: string)
    ensures Same(Split(base, '/'), Split(url, '/')) >= 3 ==>
      var bp := Split(base, '/'); var up := Split(url, '/');
      Relative(base, url) == "./" || Split(Relative(base, url), '/') == RelParts(bp, up, Same(bp, up))
  {
    var bp := Split(base, '/');
    var up := Split(url, '/');
    var same := Same(bp, up);
    if same >= 3 {
      var parts := RelParts(bp, up, same);
      if Join(parts, '/') != [] {
        RelPartsNoSep(bp, up, same);
        SplitJoin(parts, '/');
      }
    }
  }

  lemma RelPartsClimb(bp: seq<string>, up: seq<string>, same: nat)
    requires 1 <= same <= |bp| && same <= |up| && bp[..same] == up[..same]
    ensures RelParts(bp, up, same) == Repeat("..", Ups(bp, same)) + Tail(bp, up, same)
    ensures bp[..|bp| - 1 - Ups(bp, same)] + Tail(bp, up, same) == up
  {
    assert up[..same] + up[same..] == up;
    if |bp| == same {
      assert bp[..|bp| - 1] + [bp[|bp| - 1]] == bp;
      assert RelParts(bp, up, same) == [bp[|bp| - 1]] + up[same..];
      assert Repeat("..", 0) == [];
    } else {
      assert RelParts(bp, up, same) == Repeat("..", |bp| - same - 1) + up[same..];
    }
  }

  lemma RelPartsNoSep(bp: seq<string>, up: seq<string>, same: nat)
    requires same <= |bp| && same <= |up| && |bp| >= 1
    requires forall i :: 0 <= i < |bp| ==> '/' !in bp[i]
    requires forall i :: 0 <= i < |up| ==> '/' !in up[i]
    ensures forall i :: 0 <= i < |RelParts(bp, up, same)| ==> '/' !in RelParts(bp, up, same)[i]
  {
    var a := if |bp| == same then [bp[|bp| - 1]] else [];
    var dots := Repeat("..", |bp| - same - 1);
    var parts := RelParts(bp, up, same);
    assert parts == a + dots + up[same..];
    forall i | 0 <= i < |parts|
      ensures '/' !in parts[i]
    {
      if i < |a| {
        assert parts[i] == bp[|bp| - 1];
      } else if i < |a| + |dots| {
        assert parts[i] == "..";
      } else {
        assert parts[i] == up[same + (i - |a| - |dots|)];
      }
    }
  }

  // ---------------------------------------------------------------------
  // parseName
  // ---------------------------------------------------------------------

  /** A character of `\w` (ASCII, as in a byte string). */
  predicate IsWordChar(c: char)
  {
    ('a' <= c <= 'z') || ('A' <= c <= 'Z') || ('0' <= c <= '9') || c == '_'
  }

  /** A Python identifier: a letter or `_`, then word characters. */
  predicate IsIdent(s: string)
  {
    |s| >= 1 && (('a' <= s[0] <= 'z') || ('A' <= s[0] <= 'Z') || s[0] == '_')
    && forall i :: 0 <= i < |s| ==> IsWordChar(s[i])
  }

  /** The longest run of word characters at the start of `s`. */
  function WordRun(s: string): (n: nat)
    ensures n <= |s| && forall i :: 0 <= i < n ==> IsWordChar(s[i])
    ensures n < |s| ==> !IsWordChar(s[n])
  {
    if s == [] || !IsWordChar(s[0]) then 0 else 1 + WordRun(s[1..])
  }

  /** `parseName(name)`: `@@x` is `('view', x)`; `++ident++rest` is
      `(ident, rest)`; anything else is `('', name)`. */
  function ParseName(name: string): (r: (string, string))
    ensures r.0 == "" ==> r.1 == name
    ensures r.0 != "" ==> |r.1| + 2 <= |name| && r.1 == name[|name| - |r.1|..]
    ensures r.0 != "" && r.0 != "view" ==>
              |name| == |r.0| + |r.1| + 4 && name[..2] == "++" && name[2..2 + |r.0|] == r.0
  {
    if |name| >= 2 && name[..2] == "@@" then ("view", name[2..])
    else if |name| >= 2 && name[..2] == "++" then
      var n := WordRun(name[2..]);
      var id := name[2..2 + n];
      if IsIdent(id) && |name| >= 4 + n && name[2 + n..4 + n] == "++" then (id, name[4 + n..])
      else ("", name)
    else ("", name)
  }

  /** Parsing gives either no namespace and the whole name, or a namespace
      from which the name is rebuilt: `@@` for `view`, or the namespace
      bracketed by `++`. */
  lemma ParseNameInverse(name: string)
    ensures var (ns, nm) := ParseName(name);
      || (ns == "" && nm == name)
      || (ns == "view" && name == "@@" + nm)
      || (IsIdent(ns) && name == "++" + ns + "++" + nm)
  {
    if |name| >= 2 && name[..2] == "@@" {
      assert name == name[..2] + name[2..];
    } else if |name| >= 2 && name[..2] == "++" {
      var n := WordRun(name[2..]);
      if |name| >= 4 + n && name[2 + n..4 + n] == "++" {
        assert name == name[..2] + name[2..2 + n] + name[2 + n..4 + n] + name[4 + n..];
      }
    }
  }

  /** `@@x` always parses to `('view', x)`, and `++ident++rest` to
      `(ident, rest)` unless it also starts with `@@`, which it cannot. */
  lemma ParseNameForms(x: string, id: string, rest: string)
    requires IsIdent(id)
    ensures ParseName("@@" + x) == ("view", x)
    ensures ParseName("++" + id + "++" + rest) == (id, rest)
  {
    assert ("@@" + x)[..2] == "@@" && ("@@" + x)[2..] == x;
    var name := "++" + id + "++" + rest;
    assert name[..2] == "++" && name[..2] != "@@";
    assert name[2..] == id + "++" + rest;
    WordRunIdent(id, "++" + rest);
    assert name[2..2 + |id|] == id;
    assert name[2 + |id|..4 + |id|] == "++";
    assert name[4 + |id|..] == rest;
  }

  /** The word run of an identifier followed by a non-word character is
      the identifier. */
  lemma {:induction false} WordRunIdent(id: string, rest: string)
    requires forall i :: 0 <= i < |id| ==> IsWordChar(id[i])
    requires rest != [] && !IsWordChar(rest[0])
    ensures WordRun(id + rest) == |id|
    decreases |id|
  {
    if id == [] {
      assert id + rest == rest;
    } else {
      assert (id + rest)[1..] == id[1..] + rest;
      WordRunIdent(id[1..], rest);
    }
  }

  // ---------------------------------------------------------------------
  // Contexts
  // ---------------------------------------------------------------------

  /** A value a context attribute or keyword argument can hold. */
  datatype Arg = Str(s: string) | Ref(id: nat) | NoneV | Ctx(c: Context)

  /** A traversal context (`Context`, or `StartContext` when `start`): the
      attributes set on the instance, and `previous` when one was set. A
      context is not changed once built. */
  datatype Context = Context(start: bool, attrs: map<string, Arg>, previous: Option<Arg>)

  /** The names defined in the body of `Context`; `_setup` accepts exactly
      these as keywords (`StartContext` defines no others). */
  const ClassAttrs: set<string> := {
    "current", "previous", "environ", "user", "policy", "skin", "rootURL", "getResource",
    "_clone_attrs", "__init__", "childContext", "peerContext", "parentContext", "absoluteURL",
    "traversedURL", "renderHTTP", "clone", "_setup", "shift", "traverseName", "requireAccess",
    "url", "viewService", "default", "nothing", "allows"
  }

  /** `_clone_attrs`, in order. */
  const CloneAttrs: seq<string> := ["user", "policy", "skin", "rootURL", "previous", "viewService"]

  datatype CtxError = AttributeError(attr: string) | TypeError(unknown: set<string>)

  /** `previous` as read from the context: what was set, else `None` for a
      start context; a plain context without one has none to give. */
  function Previous(c: Context): Option<Arg>
  {
    if c.previous.Some? then c.previous else if c.start then Some(NoneV) else None
  }

  /** Reading attribute `a` of context `c`: what is set on the instance;
      otherwise `environ` (and, on a plain context, `user`, `policy`,
      `skin` and `rootURL`) are read from `previous`, and `viewService`
      from `previous` unless that is `None`. */
  function Get(c: Context, a: string): (r: Option<Arg>)
    ensures a in c.attrs && a != "previous" ==> r == Some(c.attrs[a])
    decreases c
  {
    if a == "previous" then Previous(c)
    else if a in c.attrs then Some(c.attrs[a])
    else if a == "environ" || (!c.start && a in {"user", "policy", "skin", "rootURL"}) || a == "viewService" then
      match Previous(c)
      case None => None
      case Some(p) =>
        if p.Ctx? then Get(p.c, a)
        else if p.NoneV? && a == "viewService" then Some(NoneV)
        else None
    else None
  }

  /** Reading an attribute of any value: only contexts have them. */
  function GetArg(v: Arg, a: string): Option<Arg>
  {
    if v.Ctx? then Get(v.c, a) else None
  }

  /** The part of `_setup` that copies `_clone_attrs` from `clone_from`:
      each one not given is read from it, and a failed read fails. */
  function CopyFrom(kw: map<string, Arg>, from: Arg, names: seq<string>): (r: Result<map<string, Arg>, CtxError>)
    ensures r.Ok? ==> forall k :: k in kw ==> k in r.value && r.value[k] == kw[k]
    ensures r.Ok? ==> forall i :: 0 <= i < |names| && names[i] !in kw ==>
                        names[i] in r.value && GetArg(from, names[i]) == Some(r.value[names[i]])
    ensures r.Ok? ==> forall k :: k in r.value ==> k in kw || k in names
    ensures r.Err? <==> exists i :: 0 <= i < |names| && names[i] !in kw && GetArg(from, names[i]).None?
    decreases |names|
  {
    if names == [] then Ok(kw)
    else
      var a := names[0];
      var kw' := if a in kw then Ok(kw)
                 else match GetArg(from, a)
                   case None => Err(AttributeError(a))
                   case Some(v) => Ok(kw[a := v]);
      if kw'.Err? then kw'
      else
        var r := CopyFrom(kw'.value, from, names[1..]);
        assert forall i :: 1 <= i < |names| ==> names[i] == names[1..][i - 1];
        r
  }

  /** `_setup(kw)`: with `clone_from`, the missing `_clone_attrs` are
      copied from it; then every keyword must name a class attribute. It
      gives the keywords in effect after copying. */
  function Setup(kw: map<string, Arg>): (r: Result<map<string, Arg>, CtxError>)
    ensures r.Ok? ==> forall k :: k in r.value ==> k in ClassAttrs
    ensures r.Ok? ==> forall k :: k in kw && k != "clone_from" ==> k in r.value && r.value[k] == kw[k]
  {
    var copied := if "clone_from" in kw then CopyFrom(kw - {"clone_from"}, kw["clone_from"], CloneAttrs) else Ok(kw);
    if copied.Err? then copied
    else
      var unknown := set k | k in copied.value && k !in ClassAttrs;
      if unknown != {} then Err(TypeError(unknown)) else copied
  }

  /** How far a value reaches down its chain of `previous` contexts. */
  function Height(v: Arg): nat
  {
    if v.Ctx? then 1 + (if v.c.previous.Some? then Height(v.c.previous.value) else 0) else 0
  }

  function NewBound(previous: Arg, kw: map<string, Arg>): nat
  {
    if previous.Ctx? then 2 * Height(previous) + 1
    else if "clone_from" in kw && Height(kw["clone_from"]) >= 1 then 2 * Height(kw["clone_from"]) - 1
    else 0
  }

  function CloneBound(c: Context, kw: map<string, Arg>): nat
  {
    var a := 2 * Height(Ctx(c));
    var b := if "previous" in kw then 2 * Height(kw["previous"]) + 2 else 0;
    var d := if "clone_from" in kw then 2 * Height(kw["clone_from"]) else 0;
    if a >= b && a >= d then a else if b >= d then b else d
  }

  /** The attributes a constructor sets on the instance: the keywords in
      effect (all but `previous`, which is kept apart), then `current`,
      `name` and `environ`. */
  function InstanceAttrs(kw1: map<string, Arg>, name: Arg, current: Arg, environ: Arg): (r: map<string, Arg>)
    ensures "name" in r && r["name"] == name
    ensures "current" in r && r["current"] == current
    ensures "environ" in r && r["environ"] == environ
    ensures "previous" !in r
    ensures forall k :: k in kw1 && k !in {"previous", "current", "name", "environ"} ==> k in r && r[k] == kw1[k]
  {
    (kw1 - {"previous"})["current" := current]["name" := name]["environ" := environ]
  }

  /** `Context(name, current, environ, previous, **kw)` (a `StartContext`
      when `start`): keywords go through `_setup`; `current`, `name` and
      `environ` are set; a `previous` other than `None` is set; and when a
      `rootURL` keyword differs from the previous context's, the previous
      context is replaced by a clone of it with this `rootURL`. */
  function New(start: bool, name: Arg, current: Arg, environ: Arg, previous: Arg, kw: map<string, Arg>): (r: Result<Context, CtxError>)
    requires "name" !in kw && "current" !in kw && "environ" !in kw && "previous" !in kw
    ensures kw != map[] && Setup(kw).Err? ==> r == Err(Setup(kw).error)
    ensures r.Ok? ==> kw == map[] || Setup(kw).Ok?
    ensures r.Ok? ==> r.value.start == start
    ensures r.Ok? ==> r.value.attrs == InstanceAttrs(if kw == map[] then map[] else Setup(kw).value, name, current, environ)
    decreases NewBound(previous, kw), 0
  {
    var s := if kw == map[] then Ok(map[]) else Setup(kw);
    if s.Err? then Err(s.error)
    else
      var kw1 := s.value;
      var attrs := InstanceAttrs(kw1, name, current, environ);
      var prev := if !previous.NoneV? then Some(previous) else if "previous" in kw1 then Some(kw1["previous"]) else None;
      var c0 := Context(start, attrs, prev);
      if "rootURL" !in kw1 then Ok(c0)
      else
        match Previous(c0)
        case None => Err(AttributeError("previous"))
        case Some(p) =>
          if p.NoneV? then Ok(c0)
          else if !p.Ctx? then Err(AttributeError("rootURL"))
          else
            match Get(p.c, "rootURL")
            case None => Err(AttributeError("rootURL"))
            case Some(u) =>
              if u == kw1["rootURL"] then Ok(c0)
              else
                PreviousLower(previous, kw, kw1, p);
                match Clone(p.c, map["rootURL" := kw1["rootURL"]])
                case Err(e) => Err(e)
                case Ok(np) => Ok(c0.(previous := Some(Ctx(np))))
  }

  /** What `ctx.clone(**kw)` passes to the constructor: `name`,
      `current` and `environ` (defaulting to the context's), `previous`
      apart, and the other keywords with `clone_from` defaulting to the
      context. */
  datatype CloneCall = CloneCall(name: Arg, current: Arg, environ: Arg, previous: Arg, rest: map<string, Arg>)

  function CloneArgs(c: Context, kw: map<string, Arg>): (r: Result<CloneCall, CtxError>)
    ensures r.Ok? <==> forall a :: a in {"name", "current", "environ"} ==> a in kw || Get(c, a).Some?
    ensures r.Ok? ==> r.value.name == (if "name" in kw then kw["name"] else Get(c, "name").value)
    ensures r.Ok? ==> r.value.current == (if "current" in kw then kw["current"] else Get(c, "current").value)
    ensures r.Ok? ==> r.value.environ == (if "environ" in kw then kw["environ"] else Get(c, "environ").value)
    ensures r.Ok? ==> r.value.previous == (if "previous" in kw then kw["previous"] else NoneV)
    ensures r.Ok? ==> "clone_from" in r.value.rest && r.value.rest["clone_from"] == (if "clone_from" in kw then kw["clone_from"] else Ctx(c))
    ensures r.Ok? ==> forall k :: k in r.value.rest && k != "clone_from" <==> k in kw && k !in {"name", "current", "environ", "previous", "clone_from"}
    ensures r.Ok? ==> forall k :: k in r.value.rest && k != "clone_from" ==> r.value.rest[k] == kw[k]
  {
    var name := if "name" in kw then Some(kw["name"]) else Get(c, "name");
    var current := if "current" in kw then Some(kw["current"]) else Get(c, "current");
    var environ := if "environ" in kw then Some(kw["environ"]) else Get(c, "environ");
    if name.None? then Err(AttributeError("name"))
    else if current.None? then Err(AttributeError("current"))
    else if environ.None? then Err(AttributeError("environ"))
    else
      var from := if "clone_from" in kw then kw["clone_from"] else Ctx(c);
      var rest := (kw - {"name", "current", "environ", "previous"})["clone_from" := from];
      var previous := if "previous" in kw then kw["previous"] else NoneV;
      Ok(CloneCall(name.value, current.value, environ.value, previous, rest))
  }

  /** `ctx.clone(**kw)`: a context of the same class built from
      `CloneArgs`. */
  function Clone(c: Context, kw: map<string, Arg>): (r: Result<Context, CtxError>)
    ensures CloneArgs(c, kw).Err? ==> r == Err(CloneArgs(c, kw).error)
    ensures r.Ok? ==> CloneArgs(c, kw).Ok? && r.value.start == c.start
    ensures r.Ok? ==> var a := CloneArgs(c, kw).value;
      && "name" in r.value.attrs && r.value.attrs["name"] == a.name
      && "current" in r.value.attrs && r.value.attrs["current"] == a.current
      && "environ" in r.value.attrs && r.value.attrs["environ"] == a.environ
    decreases CloneBound(c, kw), 1
  {
    match CloneArgs(c, kw)
    case Err(e) => Err(e)
    case Ok(a) =>
      CloneBounds(c, kw, a.rest, a.previous);
      New(c.start, a.name, a.current, a.environ, a.previous, a.rest)
  }

  /** The previous context a constructor re-clones is lower than the
      values it was built from. */
  lemma PreviousLower(previous: Arg, kw: map<string, Arg>, kw1: map<string, Arg>, p: Arg)
    requires "previous" !in kw && p.Ctx?
    requires kw != map[] ==> Setup(kw) == Ok(kw1)
    requires kw == map[] ==> kw1 == map[]
    requires previous.NoneV? ==> "previous" in kw1
    requires "rootURL" in kw1
    requires p == (if !previous.NoneV? then previous else kw1["previous"])
    ensures CloneBound(p.c, map["rootURL" := kw1["rootURL"]]) < NewBound(previous, kw)
  {
    if previous.NoneV? {
      assert kw != map[];
      assert "clone_from" in kw;
      var copied := CopyFrom(kw - {"clone_from"}, kw["clone_from"], CloneAttrs);
      assert CloneAttrs[4] == "previous";
      assert GetArg(kw["clone_from"], "previous") == Some(kw1["previous"]);
    }
  }

  lemma CloneBounds(c: Context, kw: map<string, Arg>, rest: map<string, Arg>, previous: Arg)
    requires "clone_from" in rest && rest["clone_from"] == if "clone_from" in kw then kw["clone_from"] else Ctx(c)
    requires previous == if "previous" in kw then kw["previous"] else NoneV
    ensures NewBound(previous, rest) <= CloneBound(c, kw)
  {
  }

  /** Cloning without overriding keeps every setting of `_clone_attrs` and
      `name`, `current` and `environ`; a keyword given replaces the one
      setting it names. */
  lemma CloneCopies(c: Context, kw: map<string, Arg>, a: string)
    requires "clone_from" !in kw && Clone(c, kw).Ok?
    requires a in {"name", "current", "environ", "user", "policy", "skin", "rootURL", "viewService"}
    ensures Get(Clone(c, kw).value, a) == if a in kw then Some(kw[a]) else Get(c, a)
  {
    var t := CloneArgs(c, kw).value;
    var r := New(c.start, t.name, t.current, t.environ, t.previous, t.rest);
    assert Clone(c, kw) == r;
    assert t.rest != map[];
    var kw1 := Setup(t.rest).value;
    var v := r.value;
    assert v.attrs == InstanceAttrs(kw1, t.name, t.current, t.environ);
    var x := CopiedSetting(c, kw, t, kw1, a);
    assert a in v.attrs && v.attrs[a] == x;
    assert Get(v, a) == Some(x);
  }

  /** The value `clone` passes on for one of the settings it copies. */
  lemma CopiedSetting(c: Context, kw: map<string, Arg>, t: CloneCall, kw1: map<string, Arg>, a: string) returns (x: Arg)
    requires "clone_from" !in kw && CloneArgs(c, kw) == Ok(t) && t.rest != map[] && Setup(t.rest) == Ok(kw1)
    requires a in {"name", "current", "environ", "user", "policy", "skin", "rootURL", "viewService"}
    ensures a in InstanceAttrs(kw1, t.name, t.current, t.environ) && InstanceAttrs(kw1, t.name, t.current, t.environ)[a] == x
    ensures Some(x) == if a in kw then Some(kw[a]) else Get(c, a)
  {
    if a in {"name", "current", "environ"} {
      x := if a == "name" then t.name else if a == "current" then t.current else t.environ;
    } else {
      var i: nat := if a == "user" then 0 else if a == "policy" then 1 else if a == "skin" then 2
                    else if a == "rootURL" then 3 else 5;
      assert CloneAttrs[i] == a;
      x := SharedSetting(c, kw, t, kw1, i);
    }
  }

  /** The value `clone` passes on for a setting of `_clone_attrs` other
      than `previous`: the keyword given, else the context's. */
  lemma SharedSetting(c: Context, kw: map<string, Arg>, t: CloneCall, kw1: map<string, Arg>, i: nat) returns (x: Arg)
    requires "clone_from" !in kw && CloneArgs(c, kw) == Ok(t) && t.rest != map[] && Setup(t.rest) == Ok(kw1)
    requires i < |CloneAttrs| && i != 4
    ensures var a := CloneAttrs[i];
      a in InstanceAttrs(kw1, t.name, t.current, t.environ) && InstanceAttrs(kw1, t.name, t.current, t.environ)[a] == x
    ensures var a := CloneAttrs[i]; Some(x) == if a in kw then Some(kw[a]) else Get(c, a)
  {
    var a := CloneAttrs[i];
    CloneAttrsApart();
    var kw0 := t.rest - {"clone_from"};
    var copied := CopyFrom(kw0, Ctx(c), CloneAttrs);
    assert Setup(t.rest) == copied;
    if a in kw {
      assert a in kw0;
      x := kw1[a];
    } else {
      assert a !in kw0;
      x := kw1[a];
      assert GetArg(Ctx(c), a) == Some(x);
    }
  }

  /** None of `_clone_attrs` is a name `clone` passes apart. */
  lemma CloneAttrsApart()
    ensures forall i :: 0 <= i < |CloneAttrs| ==> CloneAttrs[i] !in {"name", "current", "environ", "clone_from"}
    ensures forall i :: 0 <= i < |CloneAttrs| && i != 4 ==> CloneAttrs[i] != "previous"
  {
    forall i | 0 <= i < |CloneAttrs|
      ensures CloneAttrs[i] !in {"name", "current", "environ", "clone_from"}
      ensures i != 4 ==> CloneAttrs[i] != "previous"
    {
      var a := CloneAttrs[i];
      assert a[0] in "upsrv";
      assert i != 4 ==> a[0] != 'p' || a[1] == 'o';
    }
  }

  /** `_setup` with `clone_from` fails with `TypeError` naming every
      keyword that is no class attribute, once the copying succeeds. */
  lemma SetupUnknown(kw: map<string, Arg>, k: string)
    requires "clone_from" in kw && k in kw && k != "clone_from" && k !in ClassAttrs
    requires CopyFrom(kw - {"clone_from"}, kw["clone_from"], CloneAttrs).Ok?
    ensures Setup(kw).Err? && Setup(kw).error.TypeError? && k in Setup(kw).error.unknown
  {
    var copied := CopyFrom(kw - {"clone_from"}, kw["clone_from"], CloneAttrs);
    assert k in copied.value;
  }

  /** Copying from the context succeeds when every setting to copy can be
      read from it. */
  lemma CopyAllReadable(c: Context, kw: map<string, Arg>, kw0: map<string, Arg>)
    requires forall i :: 0 <= i < |CloneAttrs| && CloneAttrs[i] !in kw0 ==> CloneAttrs[i] !in kw || CloneAttrs[i] == "previous"
    requires forall i :: 0 <= i < |CloneAttrs| && (CloneAttrs[i] !in kw || CloneAttrs[i] == "previous") ==> Get(c, CloneAttrs[i]).Some?
    ensures CopyFrom(kw0, Ctx(c), CloneAttrs).Ok?
  {
    forall i | 0 <= i < |CloneAttrs| && CloneAttrs[i] !in kw0
      ensures GetArg(Ctx(c), CloneAttrs[i]).Some?
    {
      assert Get(c, CloneAttrs[i]).Some?;
    }
  }

  /** A keyword that names no class attribute makes `clone` fail with
      `TypeError` naming it, once the settings to copy can all be read
      (`previous` is always copied, since `clone` passes it apart). */
  lemma CloneUnknown(c: Context, kw: map<string, Arg>, k: string)
    requires "clone_from" !in kw
    requires k in kw && k !in ClassAttrs && k !in {"name", "current", "environ", "previous"}
    requires forall a :: a in {"name", "current", "environ"} && a !in kw ==> Get(c, a).Some?
    requires forall i :: 0 <= i < |CloneAttrs| && (CloneAttrs[i] !in kw || CloneAttrs[i] == "previous") ==> Get(c, CloneAttrs[i]).Some?
    ensures Clone(c, kw).Err? && Clone(c, kw).error.TypeError? && k in Clone(c, kw).error.unknown
  {
    var t := CloneArgs(c, kw).value;
    assert Clone(c, kw) == New(c.start, t.name, t.current, t.environ, t.previous, t.rest);
    RestUnknown(c, kw, t, k);
  }

  /** The keywords `clone` passes to `_setup` hold the unknown one, and
      copying from the context succeeds. */
  lemma RestUnknown(c: Context, kw: map<string, Arg>, t: CloneCall, k: string)
    requires "clone_from" !in kw && CloneArgs(c, kw) == Ok(t)
    requires k in kw && k !in ClassAttrs && k !in {"name", "current", "environ", "previous"}
    requires forall i :: 0 <= i < |CloneAttrs| && (CloneAttrs[i] !in kw || CloneAttrs[i] == "previous") ==> Get(c, CloneAttrs[i]).Some?
    ensures t.rest != map[] && Setup(t.rest).Err? && Setup(t.rest).error.TypeError? && k in Setup(t.rest).error.unknown
  {
    var kw0 := t.rest - {"clone_from"};
    assert k in kw0;
    CloneAttrsApart();
    assert forall i :: 0 <= i < |CloneAttrs| && CloneAttrs[i] !in kw0 ==> CloneAttrs[i] !in kw || CloneAttrs[i] == "previous";
    assert t.rest["clone_from"] == Ctx(c);
    CopyAllReadable(c, kw, kw0);
    SetupUnknown(t.rest, k);
  }

  /** `parentContext()`: a start context is its own parent; another
      context's parent is its `previous`. */
  function ParentContext(c: Context): (r: Option<Arg>)
    ensures c.start ==> r == Some(Ctx(c))
    ensures !c.start ==> r == Previous(c)
  {
    if c.start then Some(Ctx(c)) else Previous(c)
  }

  /** `childContext(name, ob)`: a plain context on `ob` whose previous
      context is this one and whose `environ` is this one's. */
  function ChildContext(c: Context, name: Arg, ob: Arg): (r: Result<Context, CtxError>)
    ensures r.Ok? <==> Get(c, "environ").Some?
    ensures r.Err? ==> r.error == AttributeError("environ")
    ensures r.Ok? ==> && !r.value.start && r.value.previous == Some(Ctx(c))
                      && r.value.attrs == map["current" := ob, "name" := name, "environ" := Get(c, "environ").value]
  {
    match Get(c, "environ")
    case None => Err(AttributeError("environ"))
    case Some(e) => New(false, name, ob, e, Ctx(c), map[])
  }

  /** A child context has this context as its parent and reads the
      settings it does not set (user, policy, skin, root URL) from it. */
  lemma ChildDelegates(c: Context, name: Arg, ob: Arg, a: string)
    requires Get(c, "environ").Some?
    requires a in {"environ", "user", "policy", "skin", "rootURL", "viewService"}
    ensures ChildContext(c, name, ob).Ok?
    ensures ParentContext(ChildContext(c, name, ob).value) == Some(Ctx(c))
    ensures Get(ChildContext(c, name, ob).value, a) == Get(c, a)
    ensures Get(ChildContext(c, name, ob).value, "current") == Some(ob)
  {
    var child := ChildContext(c, name, ob).value;
    assert child.attrs == map["current" := ob, "name" := name, "environ" := Get(c, "environ").value];
  }

  /** `peerContext(name, ob)`: a clone with another name and object. */
  function PeerContext(c: Context, name: Arg, ob: Arg): (r: Result<Context, CtxError>)
    ensures r.Ok? ==> && r.value.start == c.start
                      && "name" in r.value.attrs && r.value.attrs["name"] == name
                      && "current" in r.value.attrs && r.value.attrs["current"] == ob
  {
    Clone(c, map["name" := name, "current" := ob])
  }

  /** A peer context has the given name and object and the same
      environment and settings as this context. */
  lemma PeerCopies(c: Context, name: Arg, ob: Arg, a: string)
    requires PeerContext(c, name, ob).Ok?
    requires a in {"name", "current", "environ", "user", "policy", "skin", "rootURL", "viewService"}
    ensures Get(PeerContext(c, name, ob).value, a) ==
      if a == "name" then Some(name) else if a == "current" then Some(ob) else Get(c, a)
  {
    CloneCopies(c, map["name" := name, "current" := ob], a);
  }

  /** The `viewService` binding with the object adaptation written out:
      `adapt(ob)` is `IViewService(ob, None)`, `None` when `ob` does not
      adapt. A value set on the instance wins; otherwise the current
      object's view service; otherwise `None` when `previous` is `None`,
      else `previous.viewService`. A failed read is `None`. */
  function ViewService(c: Context, adapt: Arg -> Option<Arg>): (r: Option<Arg>)
    ensures "viewService" in c.attrs ==> r == Some(c.attrs["viewService"])
    ensures "viewService" !in c.attrs && "current" in c.attrs && adapt(c.attrs["current"]).Some? ==>
              r == adapt(c.attrs["current"])
    decreases c
  {
    if "viewService" in c.attrs then Some(c.attrs["viewService"])
    else if "current" in c.attrs && adapt(c.attrs["current"]).Some? then adapt(c.attrs["current"])
    else
      match Previous(c)
      case Some(NoneV) => Some(NoneV)
      case Some(Ctx(p)) => ViewService(p, adapt)
      case _ => None
  }

  /** No object adapts to a view service. */
  function NoViews(ob: Arg): Option<Arg>
  {
    None
  }

  /** When no object adapts, `viewService` is what `Get` reads: the
      delegation to `previous` alone. */
  lemma {:induction false} ViewServiceWithoutViews(c: Context)
    ensures ViewService(c, NoViews) == Get(c, "viewService")
    decreases c
  {
    if "viewService" !in c.attrs {
      match Previous(c)
      case Some(Ctx(p)) => ViewServiceWithoutViews(p);
      case _ =>
    }
  }

  /** A child context's view service is its object's, if the object
      adapts, and otherwise its parent's. */
  lemma ChildViewService(c: Context, name: Arg, ob: Arg, adapt: Arg -> Option<Arg>)
    requires Get(c, "environ").Some?
    ensures ChildContext(c, name, ob).Ok?
    ensures ViewService(ChildContext(c, name, ob).value, adapt) ==
              if adapt(ob).Some? then adapt(ob) else ViewService(c, adapt)
  {
    var child := ChildContext(c, name, ob).value;
    assert child.attrs == map["current" := ob, "name" := name, "environ" := Get(c, "environ").value];
  }

  // ---------------------------------------------------------------------
  // traverseName
  // ---------------------------------------------------------------------

  /** Where `traverseName` sends a name: to a namespace handler, to the
      `NotFound` error, to a context, or on to the current object's
      traversal. */
  datatype Traversal = Handled(handler: nat, ns: string, nm: string, qname: string)
                     | NotFound(qname: string)
                     | Found(ctx: Arg)
                     | TraverseTo(qname: string)

  /** `traverseName(name)`; `handlers` is the policy's `ns_handler`
      table. */
  function TraverseName(c: Context, name: string, handlers: map<string, nat>): (r: Option<Traversal>)
    ensures r.Some? && r.value.TraverseTo? ==> r.value.qname == name && ParseName(name).0 == ""
                                               && name != "" && name != "." && name != ".."
  {
    var (ns, nm) := ParseName(name);
    if ns != "" then
      Some(if ns in handlers then Handled(handlers[ns], ns, nm, name) else NotFound(name))
    else if name == ".." then
      match ParentContext(c) case None => None case Some(p) => Some(Found(p))
    else if name == "" || name == "." then Some(Found(Ctx(c)))
    else Some(TraverseTo(name))
  }

  /** `@@name` goes to the `view` handler; `..` gives the parent context;
      the empty name and `.` give the context itself. */
  lemma TraverseSpecial(c: Context, name: string, handlers: map<string, nat>)
    ensures |name| >= 2 && name[..2] == "@@" ==>
      TraverseName(c, name, handlers) == Some(if "view" in handlers then Handled(handlers["view"], "view", name[2..], name) else NotFound(name))
    ensures name == ".." ==>
      TraverseName(c, name, handlers) == (match ParentContext(c) case None => None case Some(p) => Some(Found(p)))
    ensures name == "" || name == "." ==> TraverseName(c, name, handlers) == Some(Found(Ctx(c)))
  {
    if |name| >= 2 && name[..2] == "@@" {
      assert ParseName(name) == ("view", name[2..]);
      assert "view"[0] == 'v' && name[0] == name[..2][0] == '@';
    } else if name == ".." {
      assert name[..2] == name && name[0] == '.';
      assert ParseName(name).0 == "";
    } else if name == "" || name == "." {
      assert ParseName(name).0 == "";
    }
  }

  /** A namespaced name `++ns++rest` goes to the handler for `ns` with
      `rest`, or is not found. */
  lemma TraverseNamespaced(c: Context, id: string, rest: string, handlers: map<string, nat>)
    requires IsIdent(id)
    ensures var name := "++" + id + "++" + rest;
      TraverseName(c, name, handlers) == Some(if id in handlers then Handled(handlers[id], id, rest, name) else NotFound(name))
  {
    ParseNameForms("", id, rest);
  }

  // ---------------------------------------------------------------------
  // shift and simpleRedirect
  // ---------------------------------------------------------------------

  /** The WSGI environment dictionary a request's contexts share. */
  class Environment {
    var vars: map<string, string>

    constructor (vars: map<string, string>)
      ensures this.vars == vars
    {
      this.vars := vars;
    }
  }

  datatype ShiftError = KeyError(key: string)

  /** `shift()`: the next path segment, shifted by `spi` (wsgiref's
      `shift_path_info`, given as a function of the environment); an empty
      segment (a trailing slash) is replaced by the policy's default method,
      which is also appended to `SCRIPT_NAME`. */
  method Shift(env: Environment, defaultMethod: string,
               spi: map<string, string> -> (Option<string>, map<string, string>))
    returns (r: Result<Option<string>, ShiftError>)
    modifies env
    ensures spi(old(env.vars)).0 != Some("") ==> r == Ok(spi(old(env.vars)).0) && env.vars == spi(old(env.vars)).1
    ensures spi(old(env.vars)).0 == Some("") && "SCRIPT_NAME" in spi(old(env.vars)).1 ==>
      r == Ok(Some(defaultMethod)) &&
      env.vars == spi(old(env.vars)).1["SCRIPT_NAME" := spi(old(env.vars)).1["SCRIPT_NAME"] + defaultMethod]
    ensures spi(old(env.vars)).0 == Some("") && "SCRIPT_NAME" !in spi(old(env.vars)).1 ==>
      r == Err(KeyError("SCRIPT_NAME")) && env.vars == spi(old(env.vars)).1
  {
    var (part, e) := spi(env.vars);
    env.vars := e;
    if part != Some("") {
      return Ok(part);
    }
    if "SCRIPT_NAME" !in env.vars {
      return Err(KeyError("SCRIPT_NAME"));
    }
    env.vars := env.vars["SCRIPT_NAME" := env.vars["SCRIPT_NAME"] + defaultMethod];
    return Ok(Some(defaultMethod));
  }

  /** `simpleRedirect(environ, location)`: `302 Found` below HTTP/1.1 (the
      protocol defaulting to HTTP/1.0), else `303 See Other`, with one
      `Location` header and no body. */
  function SimpleRedirect(environ: map<string, string>, location: string): (r: (string, seq<(string, string)>, seq<string>))
    ensures r.1 == [("Location", location)] && r.2 == []
  {
    var proto := if "SERVER_PROTOCOL" in environ then environ["SERVER_PROTOCOL"] else "HTTP/1.0";
    (if StrLt(proto, "HTTP/1.1") then "302 Found" else "303 See Other", [("Location", location)], [])
  }

  /** For a protocol `HTTP/M.m` with one-digit versions, the status is
      `302 Found` exactly for versions below 1.1; without a protocol it is
      `302 Found`. */
  lemma RedirectByVersion(environ: map<string, string>, location: string, major: char, minor: char)
    requires '0' <= major <= '9' && '0' <= minor <= '9'
    requires "SERVER_PROTOCOL" in environ ==> environ["SERVER_PROTOCOL"] == "HTTP/" + [major, '.', minor]
    ensures SimpleRedirect(environ, location).0 ==
      if "SERVER_PROTOCOL" !in environ || major < '1' || (major == '1' && minor < '1') then "302 Found" else "303 See Other"
  {
    if "SERVER_PROTOCOL" in environ {
      StrLtCommonPrefix("HTTP/", [major, '.', minor], "1.1");
      VersionBelow(major, minor);
      assert "HTTP/1.1" == "HTTP/" + "1.1";
    } else {
      StrLtCommonPrefix("HTTP/", "1.0", "1.1");
      VersionBelow('1', '0');
      assert "HTTP/1.1" == "HTTP/" + "1.1" && "HTTP/1.0" == "HTTP/" + "1.0";
      assert "1.0" == ['1', '.', '0'];
    }
  }

  /** `M.m` sorts below `1.1` exactly when the version is below 1.1. */
  lemma VersionBelow(major: char, minor: char)
    ensures StrLt([major, '.', minor], "1.1") <==> major < '1' || (major == '1' && minor < '1')
  {
    var a: string := [major, '.', minor];
    var b: string := "1.1";
    assert b[0] == '1' && b[1..] == ".1" && b[1..][1..] == "1";
    assert a[1..] == ['.', minor] && a[1..][1..] == [minor];
    assert StrLe([minor], "1") <==> minor <= '1' by {
      assert [minor][1..] == [] && "1"[1..] == [];
    }
    assert StrLe(a[1..], b[1..]) <==> minor <= '1';
    assert a == b <==> major == '1' && minor == '1';
  }

  lemma {:induction false} StrLtCommonPrefix(p: string, a: string, b: string)
    ensures StrLt(p + a, p + b) <==> StrLt(a, b)
    decreases |p|
  {
    if p != [] {
      assert (p + a)[0] == p[0] && (p + a)[1..] == p[1..] + a;
      assert (p + b)[0] == p[0] && (p + b)[1..] == p[1..] + b;
      StrLtCommonPrefix(p[1..], a, b);
    } else {
      assert p + a == a && p + b == b;
    }
  }
}
