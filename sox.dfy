/** The negotiating XML processor of `peak/util/SOX.py`: a stack of
    element frames, namespace prefixes declared per frame, lookup caches
    saved and restored per frame, and the dispatch of text, literals and
    element results to the frames' callbacks. Negotiators and callbacks are
    identified by number; what a negotiator does to its element is a
    parameter that yields the element's new callbacks. */
module Sox {
  import opened Base

  type Neg = nat
  type Handler = nat
  type Val = nat

  /** A lookup function: `(namespace URI or None, local name)` to a
      negotiator or None. */
  type Lookup = (Option<string>, string) -> Option<Neg>
  type Cache = map<string, Option<Neg>>
  type NsInfo = map<string, seq<string>>

  /** The callback entries a negotiator may set in an element's data. */
  datatype Handlers = Handlers(empty: bool, start: Option<Handler>, finish: Option<Handler>,
                               child: Option<Handler>, text: Option<Handler>, literal: Option<Handler>)

  const NoHandlers := Handlers(false, None, None, None, None, None)

  /** One element's data: its name, its attributes in document order, the
      prefixes it declared, the caches and lookups it saved, and its
      callbacks. */
  datatype Frame = Frame(name: string, attributes: seq<(string, string)>, prefixes: seq<string>,
                         caches: Option<(Cache, Cache)>, lookups: Option<(Lookup, Lookup)>, h: Handlers)

  datatype SoxError = SyntaxError(msg: string) | AssertionError

  // ---------------------------------------------------------------------
  // Names
  // ---------------------------------------------------------------------

  /** The index of the first `c` in `s`, if any. */
  function Find(s: string, c: char): (r: Option<nat>)
    ensures r.Some? ==> r.value < |s| && s[r.value] == c && c !in s[..r.value]
    ensures r.None? ==> c !in s
  {
    if s == [] then None
    else if s[0] == c then Some(0)
    else match Find(s[1..], c)
      case None => None
      case Some(i) =>
        assert s[..i + 1] == [s[0]] + s[1..][..i];
        Some(i + 1)
  }

  /** The URIs declared for `prefix`, innermost last (`ns_info.get`). */
  function NsGet(ns: NsInfo, prefix: string): seq<string>
  {
    if prefix in ns then ns[prefix] else []
  }

  /** `splitName(name)`: a `prefix:local` name, or an unprefixed one under
      the default prefix `''`, resolves to the innermost URI declared for
      the prefix; with none it gives `(None, name)`. */
  function SplitName(ns: NsInfo, name: string): (r: (Option<string>, string))
    ensures ':' !in name && NsGet(ns, "") != [] ==> r == (Some(NsGet(ns, "")[|NsGet(ns, "")| - 1]), name)
    ensures r.0.None? ==> r.1 == name
    ensures r.0.Some? ==> exists p :: p in ns && ns[p] != [] && r.0.value == ns[p][|ns[p]| - 1]
  {
    var (p, local) := match Find(name, ':')
      case Some(i) => (name[..i], name[i + 1..])
      case None => ("", name);
    if NsGet(ns, p) != [] then (Some(NsGet(ns, p)[|NsGet(ns, p)| - 1]), local) else (None, name)
  }

  /** A prefixed name `p:local` with a URI for `p` gives that URI and the
      local part. */
  lemma SplitPrefixed(ns: NsInfo, p: string, local: string)
    requires ':' !in p && NsGet(ns, p) != []
    ensures SplitName(ns, p + [':'] + local) == (Some(NsGet(ns, p)[|NsGet(ns, p)| - 1]), local)
  {
    var name := p + [':'] + local;
    assert name[..|p|] == p && name[|p|] == ':';
    assert name[|p| + 1..] == local;
    assert forall j :: 0 <= j < |p| ==> name[j] == p[j];
  }

  // ---------------------------------------------------------------------
  // Namespace declarations
  // ---------------------------------------------------------------------

  /** `ns_info.setdefault(prefix, []).append(uri)` for each declaration. */
  function PushAll(ns: NsInfo, decls: seq<(string, string)>): NsInfo
  {
    if decls == [] then ns
    else
      var m := PushAll(ns, decls[..|decls| - 1]);
      var (p, u) := decls[|decls| - 1];
      m[p := NsGet(m, p) + [u]]
  }

  /** `ns_info[prefix].pop()` for each prefix a frame declared (the lists
      are never empty there, since the frame pushed onto them). */
  function PopAll(ns: NsInfo, prefixes: seq<string>): NsInfo
  {
    if prefixes == [] then ns
    else
      var m := PopAll(ns, prefixes[..|prefixes| - 1]);
      var p := prefixes[|prefixes| - 1];
      if NsGet(m, p) == [] then m else m[p := NsGet(m, p)[..|NsGet(m, p)| - 1]]
  }

  function Prefixes(decls: seq<(string, string)>): (r: seq<string>)
    ensures |r| == |decls|
    ensures forall i :: 0 <= i < |decls| ==> r[i] == decls[i].0
  {
    if decls == [] then [] else Prefixes(decls[..|decls| - 1]) + [decls[|decls| - 1].0]
  }

  /** The URIs the declarations give `p`, in order. */
  function UrisFor(decls: seq<(string, string)>, p: string): seq<string>
  {
    if decls == [] then []
    else UrisFor(decls[..|decls| - 1], p) + (if decls[|decls| - 1].0 == p then [decls[|decls| - 1].1] else [])
  }

  function Count(s: seq<string>, p: string): nat
  {
    if s == [] then 0 else Count(s[..|s| - 1], p) + (if s[|s| - 1] == p then 1 else 0)
  }

  lemma {:induction false} PushAllGet(ns: NsInfo, decls: seq<(string, string)>, p: string)
    ensures NsGet(PushAll(ns, decls), p) == NsGet(ns, p) + UrisFor(decls, p)
    ensures |UrisFor(decls, p)| == Count(Prefixes(decls), p)
  {
    if decls != [] {
      var front := decls[..|decls| - 1];
      var (q, u) := decls[|decls| - 1];
      var m := PushAll(ns, front);
      var extra := if q == p then [u] else [];
      PushAllGet(ns, front, p);
      assert NsGet(PushAll(ns, decls), p) == NsGet(m, p) + extra;
      assert UrisFor(decls, p) == UrisFor(front, p) + extra;
      assert NsGet(ns, p) + UrisFor(front, p) + extra == NsGet(ns, p) + (UrisFor(front, p) + extra);
      PrefixesCount(decls, p);
    }
  }

  lemma PrefixesCount(decls: seq<(string, string)>, p: string)
    requires decls != []
    ensures Count(Prefixes(decls), p) ==
      Count(Prefixes(decls[..|decls| - 1]), p) + (if decls[|decls| - 1].0 == p then 1 else 0)
  {
    assert Prefixes(decls)[..|decls| - 1] == Prefixes(decls[..|decls| - 1]);
  }

  lemma {:induction false} PopAllGet(m: NsInfo, ps: seq<string>, p: string)
    requires Count(ps, p) <= |NsGet(m, p)|
    ensures NsGet(PopAll(m, ps), p) == NsGet(m, p)[..|NsGet(m, p)| - Count(ps, p)]
  {
    if ps != [] {
      var front := ps[..|ps| - 1];
      PopAllGet(m, front, p);
    } else {
      assert NsGet(m, p)[..|NsGet(m, p)|] == NsGet(m, p);
    }
  }

  /** Popping one URI for each declaration of a frame restores what every
      prefix resolves to (a prefix first declared there is left with an
      empty list, as `ns_info` is). */
  lemma NamespacesRestored(ns: NsInfo, decls: seq<(string, string)>, p: string)
    ensures NsGet(PopAll(PushAll(ns, decls), Prefixes(decls)), p) == NsGet(ns, p)
  {
    PushAllGet(ns, decls, p);
    PopAllGet(PushAll(ns, decls), Prefixes(decls), p);
  }

  /** That restoration also holds for `splitName` itself. */
  lemma SplitNameRestored(ns: NsInfo, decls: seq<(string, string)>, name: string)
    ensures SplitName(PopAll(PushAll(ns, decls), Prefixes(decls)), name) == SplitName(ns, name)
  {
    var after := PopAll(PushAll(ns, decls), Prefixes(decls));
    forall p | true
      ensures NsGet(after, p) == NsGet(ns, p)
    {
      NamespacesRestored(ns, decls, p);
    }
  }

  // ---------------------------------------------------------------------
  // Attribute scanning
  // ---------------------------------------------------------------------

  /** `k` starts with `xmlns:`. */
  predicate XmlnsPrefixed(k: string)
  {
    |k| >= 6 && k[0] == 'x' && k[1] == 'm' && k[2] == 'l' && k[3] == 'n' && k[4] == 's' && k[5] == ':'
  }

  /** An attribute that is negotiated: prefixed and not a declaration. */
  predicate Negotiated(k: string)
  {
    ':' in k && !XmlnsPrefixed(k)
  }

  /** The flat `[k1, v1, k2, v2, ...]` list of the XML parser, as pairs. */
  function Pairs(flat: seq<string>): (r: seq<(string, string)>)
    requires |flat| % 2 == 0
    ensures |r| * 2 == |flat|
    ensures forall i :: 0 <= i < |r| ==> r[i] == (flat[2 * i], flat[2 * i + 1])
  {
    if flat == [] then [] else [(flat[0], flat[1])] + Pairs(flat[2..])
  }

  /** The namespace declarations and the negotiated attributes among
      `attrs`, both in document order. */
  function Scan(attrs: seq<(string, string)>): (r: (seq<(string, string)>, seq<(string, string)>))
    ensures |r.0| + |r.1| <= |attrs|
    ensures forall i :: 0 <= i < |r.1| ==> r.1[i] in attrs && Negotiated(r.1[i].0)
  {
    if attrs == [] then ([], [])
    else
      var (decls, neg) := Scan(attrs[..|attrs| - 1]);
      var (k, v) := attrs[|attrs| - 1];
      var d := Declaration(k, v);
      if d.Some? then (decls + [d.value], neg)
      else if Negotiated(k) then (decls, neg + [(k, v)])
      else (decls, neg)
  }

  /** The namespace declaration an attribute makes, if it is one: `xmlns`
      declares the default prefix `''`, `xmlns:p` the prefix `p`. */
  function Declaration(k: string, v: string): (r: Option<(string, string)>)
    ensures r.Some? ==> ':' in k || k == "xmlns"
  {
    if k == "xmlns" then Some(("", v))
    else if XmlnsPrefixed(k) then (assert k[5] == ':'; Some((k[6..], v)))
    else None
  }

  /** The attributes negotiated are exactly the prefixed attributes other
      than `xmlns:` declarations, in document order. */
  lemma {:induction false} ScanNegotiated(attrs: seq<(string, string)>)
    ensures forall x :: x in Scan(attrs).1 <==> x in attrs && Negotiated(x.0)
  {
    if attrs != [] {
      var front := attrs[..|attrs| - 1];
      ScanNegotiated(front);
      assert attrs == front + [attrs[|attrs| - 1]];
    }
  }

  /** Each declaration is `xmlns` (the default prefix `''`) or
      `xmlns:prefix`, one per declaring attribute. */
  lemma {:induction false} ScanDeclarations(attrs: seq<(string, string)>)
    ensures forall d :: d in Scan(attrs).0 <==>
      exists i :: 0 <= i < |attrs| && ((attrs[i].0 == "xmlns" && d == ("", attrs[i].1))
                                    || (XmlnsPrefixed(attrs[i].0) && d == (attrs[i].0[6..], attrs[i].1)))
  {
    if attrs != [] {
      var front := attrs[..|attrs| - 1];
      ScanDeclarations(front);
      assert forall i :: 0 <= i < |front| ==> front[i] == attrs[i];
      var k := attrs[|attrs| - 1].0;
      if XmlnsPrefixed(k) {
        assert k[5] == ':';
      }
    }
  }

  /** A frame saves the caches once, when it first declares a namespace or
      sets lookups. */
  function SaveOnce(c: Option<(Cache, Cache)>, current: (Cache, Cache)): Option<(Cache, Cache)>
  {
    if c.None? then Some(current) else c
  }

  /** One cached lookup: an entry already in the cache wins; otherwise the
      lookup function is asked and its answer stored. */
  function CachedLookup(cache: Cache, key: string, look: Lookup, ns: NsInfo): (r: (Option<Neg>, Cache))
    ensures key in r.1 && r.1[key] == r.0
    ensures key in cache ==> r.0 == cache[key] && r.1 == cache
    ensures forall k :: k in cache ==> k in r.1 && r.1[k] == cache[k]
  {
    if key in cache then (cache[key], cache)
    else var f := look(SplitName(ns, key).0, SplitName(ns, key).1); (f, cache[key := f])
  }

  /** The negotiation of the attributes `pairs`, each through the
      attribute cache; `attrNeg` is what a negotiator makes of the frame. */
  function AttrPhase(cache: Cache, pairs: seq<(string, string)>, look: Lookup, ns: NsInfo, fr: Frame,
                     attrNeg: (Neg, Frame, string, string) -> Handlers): (Cache, Handlers)
    decreases |pairs|
  {
    if pairs == [] then (cache, fr.h)
    else
      var (f, c) := CachedLookup(cache, pairs[0].0, look, ns);
      var h := if f.Some? then attrNeg(f.value, fr, pairs[0].0, pairs[0].1) else fr.h;
      AttrPhase(c, pairs[1..], look, ns, fr.(h := h), attrNeg)
  }

  /** What `startElement` makes of an element `name` with attribute pairs
      `pairs`, given the caches `am` (attributes) and `em` (elements), the
      declarations `ns0` and the lookups `le`, `la` in force: the element's
      frame, the new attribute and element caches, and the new
      declarations. */
  function Opened(am: Cache, em: Cache, ns0: NsInfo, le: Lookup, la: Lookup, name: string,
                  pairs: seq<(string, string)>, elemNeg: (Neg, Frame) -> Handlers,
                  attrNeg: (Neg, Frame, string, string) -> Handlers): (Frame, Cache, Cache, NsInfo)
  {
    var decls := Scan(pairs).0;
    var ns := PushAll(ns0, decls);
    var fr := Frame(name, pairs, Prefixes(decls), if decls == [] then None else Some((am, em)), None, NoHandlers);
    var n := Negotiate(if decls == [] then am else map[], if decls == [] then em else map[], ns, le, la,
                       fr, Scan(pairs).1, elemNeg, attrNeg);
    (n.0, n.1, n.2, ns)
  }

  /** The negotiation part of `startElement` on the element's frame `fr`:
      the element's negotiator and then those of the attributes in `neg`,
      each through its cache. */
  function Negotiate(am: Cache, em: Cache, ns: NsInfo, le: Lookup, la: Lookup, fr: Frame,
                     neg: seq<(string, string)>, elemNeg: (Neg, Frame) -> Handlers,
                     attrNeg: (Neg, Frame, string, string) -> Handlers): (r: (Frame, Cache, Cache))
    ensures r.0 == fr.(h := r.0.h)
  {
    var e := CachedLookup(em, fr.name, le, ns);
    var fr' := fr.(h := if e.0.Some? then elemNeg(e.0.value, fr) else NoHandlers);
    var a := AttrPhase(am, neg, la, ns, fr', attrNeg);
    (fr'.(h := a.1), a.0, e.1)
  }

  /** The frame `startElement` pushes keeps the element's name and all its
      attributes in order, lists the prefixes it declares, and has saved
      the caches exactly when it declares some; undoing its declarations
      gives back the namespaces in force before, so names split as before. */
  lemma OpenedFrame(am: Cache, em: Cache, ns0: NsInfo, le: Lookup, la: Lookup, name: string,
                    pairs: seq<(string, string)>, elemNeg: (Neg, Frame) -> Handlers,
                    attrNeg: (Neg, Frame, string, string) -> Handlers, q: string)
    ensures var o := Opened(am, em, ns0, le, la, name, pairs, elemNeg, attrNeg);
      && o.0.name == name && o.0.attributes == pairs && o.0.lookups.None?
      && o.0.prefixes == Prefixes(Scan(pairs).0)
      && (o.0.caches.Some? <==> Scan(pairs).0 != [])
      && (o.0.caches.Some? ==> o.0.caches.value == (am, em))
      && SplitName(PopAll(o.3, o.0.prefixes), q) == SplitName(ns0, q)
  {
    SplitNameRestored(ns0, Scan(pairs).0, q);
  }

  // ---------------------------------------------------------------------
  // The parser
  // ---------------------------------------------------------------------

  class NegotiatingParser {
    var elementMap: Cache
    var attributeMap: Cache
    var nsInfo: NsInfo
    var stack: seq<Frame>
    var lookupElement: Lookup
    var lookupAttribute: Lookup

    predicate Valid()
      reads this
    {
      |stack| >= 1
    }

    /** A fresh parser: empty caches and namespaces, one root frame, and
        lookups that find nothing. */
    constructor ()
      ensures Valid() && elementMap == map[] && attributeMap == map[] && nsInfo == map[]
      ensures |stack| == 1 && stack[0].h == NoHandlers && stack[0].prefixes == [] && stack[0].caches.None?
      ensures forall ns, n :: lookupElement(ns, n).None? && lookupAttribute(ns, n).None?
    {
      elementMap, attributeMap, nsInfo := map[], map[], map[];
      stack := [Frame("", [], [], None, None, NoHandlers)];
      lookupElement := (ns: Option<string>, n: string) => None;
      lookupAttribute := (ns: Option<string>, n: string) => None;
    }

    function Top(): Frame
      requires Valid()
      reads this
    {
      stack[|stack| - 1]
    }

    /** `resetCaches()` applied to frame `fr`: it saves the caches once;
        both caches start empty. */
    method ResetCachesOf(fr: Frame) returns (fr': Frame)
      modifies this`elementMap, this`attributeMap
      ensures fr' == fr.(caches := SaveOnce(fr.caches, (old(attributeMap), old(elementMap))))
      ensures elementMap == map[] && attributeMap == map[]
    {
      fr' := fr.(caches := SaveOnce(fr.caches, (attributeMap, elementMap)));
      attributeMap, elementMap := map[], map[];
    }

    /** `resetCaches()` on the top frame. */
    method ResetCaches()
      requires Valid()
      modifies this`stack, this`elementMap, this`attributeMap
      ensures Valid() && stack == old(stack)[..|old(stack)| - 1] + [old(Top()).(caches := SaveOnce(old(Top()).caches, (old(attributeMap), old(elementMap))))]
      ensures elementMap == map[] && attributeMap == map[]
    {
      var top := ResetCachesOf(Top());
      stack := stack[..|stack| - 1] + [top];
    }

    /** `addNamespace(prefix, uri)` applied to frame `fr`: pushes the URI
        for the prefix, records the prefix in the frame and resets the
        caches. */
    method Declare(fr: Frame, prefix: string, uri: string) returns (fr': Frame)
      modifies this`elementMap, this`attributeMap, this`nsInfo
      ensures nsInfo == old(nsInfo)[prefix := NsGet(old(nsInfo), prefix) + [uri]]
      ensures fr' == fr.(prefixes := fr.prefixes + [prefix], caches := SaveOnce(fr.caches, (old(attributeMap), old(elementMap))))
      ensures elementMap == map[] && attributeMap == map[]
    {
      nsInfo := nsInfo[prefix := NsGet(nsInfo, prefix) + [uri]];
      fr' := ResetCachesOf(fr.(prefixes := fr.prefixes + [prefix]));
    }

    /** `addNamespace(prefix, uri)` on the top frame. */
    method AddNamespace(prefix: string, uri: string)
      requires Valid()
      modifies this`stack, this`elementMap, this`attributeMap, this`nsInfo
      ensures Valid() && |stack| == |old(stack)| && stack[..|stack| - 1] == old(stack)[..|stack| - 1]
      ensures nsInfo == old(nsInfo)[prefix := NsGet(old(nsInfo), prefix) + [uri]]
      ensures Top() == old(Top()).(prefixes := old(Top()).prefixes + [prefix],
                                   caches := SaveOnce(old(Top()).caches, (old(attributeMap), old(elementMap))))
      ensures elementMap == map[] && attributeMap == map[]
    {
      var top := Declare(Top(), prefix, uri);
      stack := stack[..|stack| - 1] + [top];
    }

    /** `setLookups(element, attribute)`: resets the caches, saves the
        lookups once per frame and installs the ones given. */
    method SetLookups(element: Option<Lookup>, attribute: Option<Lookup>)
      requires Valid()
      modifies this
      ensures Valid() && |stack| == |old(stack)| && stack[..|stack| - 1] == old(stack)[..|stack| - 1]
      ensures Top() == old(Top()).(caches := SaveOnce(old(Top()).caches, (old(attributeMap), old(elementMap))),
                                   lookups := if old(Top()).lookups.None? then Some((old(lookupElement), old(lookupAttribute)))
                                              else old(Top()).lookups)
      ensures elementMap == map[] && attributeMap == map[] && nsInfo == old(nsInfo)
      ensures lookupElement == (if element.Some? then element.value else old(lookupElement))
      ensures lookupAttribute == (if attribute.Some? then attribute.value else old(lookupAttribute))
    {
      ResetCaches();
      var top := Top();
      if top.lookups.None? {
        stack := stack[..|stack| - 1] + [top.(lookups := Some((lookupElement, lookupAttribute)))];
      }
      if element.Some? {
        lookupElement := element.value;
      }
      if attribute.Some? {
        lookupAttribute := attribute.value;
      }
    }

    /** The attribute loop of `startElement` on the element's frame `fr0`:
        every pair is kept in order, declarations are applied, and the
        negotiated pairs are collected. */
    method ScanAttributes(fr0: Frame, pairs: seq<(string, string)>) returns (fr: Frame, neg: seq<(string, string)>)
      modifies this`elementMap, this`attributeMap, this`nsInfo
      ensures neg == Scan(pairs).1
      ensures nsInfo == PushAll(old(nsInfo), Scan(pairs).0)
      ensures fr == fr0.(attributes := fr0.attributes + pairs,
                         prefixes := fr0.prefixes + Prefixes(Scan(pairs).0),
                         caches := if Scan(pairs).0 == [] then fr0.caches
                                   else SaveOnce(fr0.caches, (old(attributeMap), old(elementMap))))
      ensures Scan(pairs).0 == [] ==> elementMap == old(elementMap) && attributeMap == old(attributeMap)
      ensures Scan(pairs).0 != [] ==> elementMap == map[] && attributeMap == map[]
    {
      neg, fr := [], fr0;
      var i := 0;
      ghost var maps0 := (attributeMap, elementMap);
      while i < |pairs|
        invariant 0 <= i <= |pairs|
        invariant neg == Scan(pairs[..i]).1
        invariant nsInfo == PushAll(old(nsInfo), Scan(pairs[..i]).0)
        invariant fr.name == fr0.name && fr.lookups == fr0.lookups && fr.h == fr0.h
        invariant fr.attributes == fr0.attributes + pairs[..i]
        invariant fr.prefixes == fr0.prefixes + Prefixes(Scan(pairs[..i]).0)
        invariant fr.caches == if Scan(pairs[..i]).0 == [] then fr0.caches else SaveOnce(fr0.caches, maps0)
        invariant Scan(pairs[..i]).0 == [] ==> (attributeMap, elementMap) == maps0
        invariant Scan(pairs[..i]).0 != [] ==> elementMap == map[] && attributeMap == map[]
      {
        var (k, v) := pairs[i];
        assert pairs[..i + 1][..i] == pairs[..i];
        ghost var before := Scan(pairs[..i]).0;
        fr := fr.(attributes := fr.attributes + [(k, v)]);
        assert fr0.attributes + pairs[..i + 1] == fr0.attributes + pairs[..i] + [(k, v)];
        var d := Declaration(k, v);
        if d.Some? {
          fr := Declare(fr, d.value.0, d.value.1);
          assert Prefixes(before + [d.value]) == Prefixes(before) + [d.value.0];
        } else if Negotiated(k) {
          neg := neg + [(k, v)];
        }
        i := i + 1;
      }
      assert pairs[..i] == pairs;
    }

    /** `startElement(name, attrs)`: refused inside an element marked
        empty; otherwise a frame for the element is pushed, the
        declarations are applied, the element and then its negotiated
        attributes are negotiated through the caches, and the `start`
        callback to call is returned. The negotiators see only the
        element's frame, so the frame is built first and pushed whole. */
    method StartElement(name: string, flat: seq<string>, elemNeg: (Neg, Frame) -> Handlers,
                        attrNeg: (Neg, Frame, string, string) -> Handlers) returns (r: Result<Option<Handler>, SoxError>)
      requires Valid() && |flat| % 2 == 0
      modifies this`stack, this`elementMap, this`attributeMap, this`nsInfo
      ensures Valid()
      ensures old(Top()).h.empty ==>
        (r == Err(SyntaxError("Child elements not allowed")) &&
         stack == old(stack) && elementMap == old(elementMap) && attributeMap == old(attributeMap) && nsInfo == old(nsInfo))
      ensures !old(Top()).h.empty ==>
        var o := Opened(old(attributeMap), old(elementMap), old(nsInfo), lookupElement, lookupAttribute,
                        name, Pairs(flat), elemNeg, attrNeg);
        && stack == old(stack) + [o.0] && (attributeMap, elementMap, nsInfo) == (o.1, o.2, o.3)
        && r == Ok(o.0.h.start)
    {
      if Top().h.empty {
        return Err(SyntaxError("Child elements not allowed"));
      }
      var fr := OpenFrame(name, Pairs(flat), elemNeg, attrNeg);
      stack := stack + [fr];
      r := Ok(fr.h.start);
    }

    /** `startElement` past its first check: the element's frame is built,
        its declarations applied, and the element and its attributes
        negotiated; the negotiators see only the frame, so building it
        before it is pushed is the same. */
    method OpenFrame(name: string, pairs: seq<(string, string)>, elemNeg: (Neg, Frame) -> Handlers,
                     attrNeg: (Neg, Frame, string, string) -> Handlers) returns (fr: Frame)
      modifies this`elementMap, this`attributeMap, this`nsInfo
      ensures (fr, attributeMap, elementMap, nsInfo)
           == Opened(old(attributeMap), old(elementMap), old(nsInfo), lookupElement, lookupAttribute, name, pairs, elemNeg, attrNeg)
    {
      ghost var decls := Scan(pairs).0;
      var neg;
      fr, neg := ScanAttributes(Frame(name, [], [], None, None, NoHandlers), pairs);
      assert [] + pairs == pairs && [] + Prefixes(decls) == Prefixes(decls);
      fr := NegotiateFrame(fr, neg, elemNeg, attrNeg);
    }

    /** The negotiation part of `startElement` on the element's frame. */
    method NegotiateFrame(fr0: Frame, neg: seq<(string, string)>, elemNeg: (Neg, Frame) -> Handlers,
                          attrNeg: (Neg, Frame, string, string) -> Handlers) returns (fr: Frame)
      modifies this`elementMap, this`attributeMap
      ensures (fr, attributeMap, elementMap)
           == Negotiate(old(attributeMap), old(elementMap), nsInfo, lookupElement, lookupAttribute, fr0, neg, elemNeg, attrNeg)
    {
      var f := LookupElement(fr0.name);
      fr := fr0.(h := if f.Some? then elemNeg(f.value, fr0) else NoHandlers);
      fr := NegotiateAttributes(fr, neg, attrNeg);
    }

    /** The element's negotiator, through the element cache. */
    method LookupElement(name: string) returns (f: Option<Neg>)
      modifies this`elementMap
      ensures (f, elementMap) == CachedLookup(old(elementMap), name, lookupElement, nsInfo)
    {
      if name in elementMap {
        return elementMap[name];
      }
      var (ns, nm) := SplitName(nsInfo, name);
      f := lookupElement(ns, nm);
      elementMap := elementMap[name := f];
    }

    /** The attribute-negotiation loop of `startElement` on the element's
        frame. */
    method NegotiateAttributes(fr0: Frame, neg: seq<(string, string)>, attrNeg: (Neg, Frame, string, string) -> Handlers)
      returns (fr: Frame)
      modifies this`attributeMap
      ensures (attributeMap, fr.h) == AttrPhase(old(attributeMap), neg, lookupAttribute, nsInfo, fr0, attrNeg)
      ensures fr == fr0.(h := fr.h)
    {
      fr := fr0;
      var i := 0;
      while i < |neg|
        invariant 0 <= i <= |neg|
        invariant fr == fr0.(h := fr.h)
        invariant AttrPhase(old(attributeMap), neg, lookupAttribute, nsInfo, fr0, attrNeg)
               == AttrPhase(attributeMap, neg[i..], lookupAttribute, nsInfo, fr, attrNeg)
      {
        assert neg[i..][0] == neg[i] && neg[i..][1..] == neg[i + 1..];
        var (k, v) := neg[i];
        var f, c := CachedLookup(attributeMap, k, lookupAttribute, nsInfo).0, CachedLookup(attributeMap, k, lookupAttribute, nsInfo).1;
        attributeMap := c;
        if f.Some? {
          fr := fr.(h := attrNeg(f.value, fr, k, v));
        }
        i := i + 1;
      }
      assert neg[i..] == [];
    }

    /** The loop of `endElement` that pops one URI per declared prefix. */
    method PopNamespaces(prefixes: seq<string>)
      modifies this`nsInfo
      ensures nsInfo == PopAll(old(nsInfo), prefixes)
    {
      var i := 0;
      while i < |prefixes|
        invariant 0 <= i <= |prefixes|
        invariant nsInfo == PopAll(old(nsInfo), prefixes[..i])
      {
        assert prefixes[..i + 1][..i] == prefixes[..i];
        var p := prefixes[i];
        if NsGet(nsInfo, p) != [] {
          nsInfo := nsInfo[p := NsGet(nsInfo, p)[..|NsGet(nsInfo, p)| - 1]];
        }
        i := i + 1;
      }
      assert prefixes[..i] == prefixes;
    }

    /** `endElement(name)`: pops the frame (a name other than the frame's
        fails the source's assertion after the pop), hands a `finish`
        result to the parent's `child` callback, pops one URI per declared
        prefix, and restores the caches and lookups the frame saved.
        `finishResult` says what each `finish` callback returns. */
    method EndElement(name: Option<string>, finishResult: Handler -> Val)
      returns (r: Result<(Option<Val>, Option<(Handler, Val)>), SoxError>)
      requires Valid() && |stack| >= 2
      modifies this
      ensures Valid() && stack == old(stack)[..|old(stack)| - 1]
      ensures name.Some? && name.value != old(Top()).name ==>
        r == Err(AssertionError) && nsInfo == old(nsInfo) && elementMap == old(elementMap) && attributeMap == old(attributeMap)
        && lookupElement == old(lookupElement) && lookupAttribute == old(lookupAttribute)
      ensures name.None? || name.value == old(Top()).name ==>
        var data := old(Top());
        var result := if data.h.finish.Some? then Some(finishResult(data.h.finish.value)) else None;
        var parent := old(stack)[|old(stack)| - 2].h.child;
        && r == Ok((result, if result.Some? && parent.Some? then Some((parent.value, result.value)) else None))
        && nsInfo == PopAll(old(nsInfo), data.prefixes)
        && (attributeMap, elementMap) == (if data.caches.Some? then data.caches.value else (old(attributeMap), old(elementMap)))
        && (lookupElement, lookupAttribute) ==
             (if data.caches.Some? && data.lookups.Some? then data.lookups.value else (old(lookupElement), old(lookupAttribute)))
    {
      var data := Top();
      stack := stack[..|stack| - 1];
      if name.Some? && name.value != data.name {
        return Err(AssertionError);
      }
      var result: Option<Val> := None;
      var call: Option<(Handler, Val)> := None;
      if data.h.finish.Some? {
        result := Some(finishResult(data.h.finish.value));
        var child := Top().h.child;
        if child.Some? {
          call := Some((child.value, result.value));
        }
      }
      PopNamespaces(data.prefixes);
      if data.caches.Some? {
        attributeMap, elementMap := data.caches.value.0, data.caches.value.1;
        if data.lookups.Some? {
          lookupElement, lookupAttribute := data.lookups.value.0, data.lookups.value.1;
        }
      }
      return Ok((result, call));
    }

    /** `text(text)`: the top frame's `text` callback, if any, gets it. */
    function Text(t: string): (r: Option<(Handler, string)>)
      requires Valid()
      reads this
      ensures r.Some? <==> Top().h.text.Some?
      ensures r.Some? ==> r.value == (Top().h.text.value, t)
    {
      if Top().h.text.Some? then Some((Top().h.text.value, t)) else None
    }

    /** `literal(text)`: the top frame's `literal` callback gets it. */
    function Literal(t: string): (r: Option<(Handler, string)>)
      requires Valid()
      reads this
      ensures r.Some? <==> Top().h.literal.Some?
      ensures r.Some? ==> r.value == (Top().h.literal.value, t)
    {
      if Top().h.literal.Some? then Some((Top().h.literal.value, t)) else None
    }

    /** `comment(text)`: a comment is a literal `<!--text-->`. */
    function Comment(t: string): (r: Option<(Handler, string)>)
      requires Valid()
      reads this
      ensures r == Literal("<!--" + t + "-->")
      ensures r.Some? ==> |r.value.1| == |t| + 7 && r.value.1[4..|t| + 4] == t
    {
      var s := "<!--" + t + "-->";
      assert s[4..|t| + 4] == t;
      if Top().h.literal.Some? then Some((Top().h.literal.value, s)) else None
    }
  }

  // ---------------------------------------------------------------------
  // Node
  // ---------------------------------------------------------------------

  /** What a node holds in order: text, or a child node by identity. */
  datatype Item = Text(text: string) | Sub(node: nat)

  /** An entry of a node's instance dictionary: an attribute copied from
      the element, or the list of children added under a name. */
  datatype Slot = Attr(value: string) | Children(nodes: seq<nat>)

  datatype NodeError = AttributeError

  /** The DOM-like `Node`: child nodes in order, children and text in
      order, and the instance dictionary, which holds both the element's
      attributes and the per-name lists of children. */
  class Node {
    var name: string
    var subNodes: seq<nat>
    var allNodes: seq<Item>
    var dict: map<string, Slot>

    /** `Node(name, atts)`: no children yet; the attributes are copied
        into the dictionary. */
    constructor (name: string, atts: map<string, string>)
      ensures this.name == name && subNodes == [] && allNodes == []
      ensures dict.Keys == atts.Keys && forall k :: k in atts ==> dict[k] == Attr(atts[k])
    {
      this.name := name;
      subNodes, allNodes := [], [];
      dict := map k | k in atts :: Attr(atts[k]);
    }

    /** `_get(name)`: the dictionary entry, or an empty list of children. */
    function Get(key: string): (r: Slot)
      reads this
      ensures key !in dict ==> r == Children([])
      ensures key in dict ==> r == dict[key]
    {
      if key in dict then dict[key] else Children([])
    }

    /** `_addNode(name, node)`: the node joins both ordered lists and the
        list kept under `name`; when `name` is an attribute of the element
        the last step fails (a string has no `append`), after the two
        lists have grown. */
    method AddNode(key: string, node: nat) returns (r: Result<(), NodeError>)
      modifies this`subNodes, this`allNodes, this`dict
      ensures subNodes == old(subNodes) + [node] && allNodes == old(allNodes) + [Sub(node)]
      ensures old(Get(key)).Attr? <==> r.Err?
      ensures old(Get(key)).Attr? ==> dict == old(dict)
      ensures old(Get(key)).Children? ==> dict == old(dict)[key := Children(old(Get(key)).nodes + [node])]
    {
      allNodes := allNodes + [Sub(node)];
      subNodes := subNodes + [node];
      if key !in dict {
        dict := dict[key := Children([])];
      }
      match dict[key]
      case Attr(_) => return Err(AttributeError);
      case Children(ns) =>
        dict := dict[key := Children(ns + [node])];
        return Ok(());
    }

    /** `_addText(text)`: text joins the ordered list of everything. */
    method AddText(text: string)
      modifies this`allNodes
      ensures allNodes == old(allNodes) + [Text(text)]
    {
      allNodes := allNodes + [Text(text)];
    }
  }

  // ---------------------------------------------------------------------
  // validatedAttributes
  // ---------------------------------------------------------------------

  datatype AttrError = Missing(attr: string) | Unrecognized(attr: string)

  /** `dict([kv for kv in attributes if ':' not in kv[0]])`: later pairs
      win. */
  function Unprefixed(attributes: seq<(string, string)>): (r: map<string, string>)
    ensures forall k :: k in r <==> ':' !in k && exists i :: 0 <= i < |attributes| && attributes[i].0 == k
  {
    if attributes == [] then map[]
    else
      var front := attributes[..|attributes| - 1];
      var (k, v) := attributes[|attributes| - 1];
      var m := Unprefixed(front);
      assert forall i :: 0 <= i < |front| ==> front[i] == attributes[i];
      if ':' in k then m else m[k := v]
  }

  /** The first of `names` that is not a key of `m`. */
  function FirstMissing(names: seq<string>, m: map<string, string>): (r: Option<string>)
    ensures r.Some? ==> r.value in names && r.value !in m
    ensures r.None? ==> forall n :: n in names ==> n in m
  {
    if names == [] then None
    else if names[0] !in m then Some(names[0])
    else FirstMissing(names[1..], m)
  }

  /** The first unprefixed attribute, in document order, that is listed
      neither as required nor as optional. */
  function FirstUnlisted(attributes: seq<(string, string)>, required: seq<string>, optional: seq<string>): (r: Option<string>)
    ensures r.Some? ==> ':' !in r.value && r.value !in required && r.value !in optional
                        && exists i :: 0 <= i < |attributes| && attributes[i].0 == r.value
    ensures r.None? ==> forall i :: 0 <= i < |attributes| && ':' !in attributes[i].0 ==>
                          attributes[i].0 in required || attributes[i].0 in optional
  {
    if attributes == [] then None
    else
      var k := attributes[0].0;
      if ':' !in k && k !in required && k !in optional then Some(k)
      else
        var r := FirstUnlisted(attributes[1..], required, optional);
        assert forall i :: 1 <= i < |attributes| ==> attributes[i] == attributes[1..][i - 1];
        r
  }

  /** `validatedAttributes(parser, data, required, optional)`: the
      unprefixed attributes, or the error for a missing required attribute,
      then for an unlisted one. */
  function ValidatedAttributes(attributes: seq<(string, string)>, required: seq<string>, optional: seq<string>)
    : (r: Result<map<string, string>, AttrError>)
    ensures r.Ok? ==> r.value == Unprefixed(attributes)
    ensures r.Ok? <==> ((forall n :: n in required ==> n in Unprefixed(attributes))
                        && (forall k :: k in Unprefixed(attributes) ==> k in required || k in optional))
    ensures r.Ok? ==> forall k :: k in r.value ==> ':' !in k
    ensures r.Err? && r.error.Missing? ==> r.error.attr in required && r.error.attr !in Unprefixed(attributes)
    ensures r.Err? && r.error.Unrecognized? ==>
      r.error.attr in Unprefixed(attributes) && r.error.attr !in required && r.error.attr !in optional
  {
    var attrs := Unprefixed(attributes);
    match FirstMissing(required, attrs)
    case Some(a) => Err(Missing(a))
    case None =>
      match FirstUnlisted(attributes, required, optional)
      case Some(a) => Err(Unrecognized(a))
      case None => Ok(attrs)
  }
}
