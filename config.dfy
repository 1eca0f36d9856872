/** Configuration keys and the configuration map of
    `peak/config/config_components.py`: the wildcard lookup order of
    `XMLKey`, provider registration by implication depth with namespace
    locking, first-match rule lookup with pinning of undefined keys, lookup
    along a parent chain, de-duplicated key iteration, `LazyRule` and the
    `Namespace` mapping. */
module Config {
  import opened Base

  datatype ConfigError = NameNotFound | AlreadyRead | UnknownKind(kind: string)

  // ---------------------------------------------------------------------
  // XMLKey
  // ---------------------------------------------------------------------

  datatype XMLKind = Element | Attribute

  /** An `XMLKey(kind, xmlns, name)`; `*` in `xmlns` or `name` is a
      wildcard. */
  datatype XMLKey = XMLKey(kind: XMLKind, xmlns: string, name: string)

  const Star := "*"

  /** `XMLKind(kind)`: only the two kind names are accepted. */
  function ParseKind(kind: string): (r: Result<XMLKind, ConfigError>)
    ensures r.Ok? <==> kind == "element" || kind == "attribute"
    ensures r == Ok(Element) <==> kind == "element"
  {
    if kind == "element" then Ok(Element)
    else if kind == "attribute" then Ok(Attribute)
    else Err(UnknownKind(kind))
  }

  /** The `XMLKey` constructor. */
  function MakeXMLKey(kind: string, xmlns: string, name: string): (r: Result<XMLKey, ConfigError>)
    ensures r.Ok? <==> ParseKind(kind).Ok?
    ensures r.Ok? ==> r.value == XMLKey(ParseKind(kind).value, xmlns, name)
  {
    match ParseKind(kind)
    case Ok(k) => Ok(XMLKey(k, xmlns, name))
    case Err(e) => Err(e)
  }

  /** `registrationKeys()`: the key itself at depth 0. */
  function RegistrationKeys(k: XMLKey): (r: seq<(XMLKey, nat)>)
    ensures r == [(k, 0)]
  {
    [(k, 0)]
  }

  /** `parentKeys()`: an XML key lies in no namespace. */
  function ParentKeys(k: XMLKey): (r: seq<XMLKey>)
    ensures r == []
  {
    []
  }

  /** `lookupKeys()`: the key, then same namespace with any name, then any
      namespace with the same name, then both wildcards; entries the key
      itself already covers by its own wildcards are left out. */
  function LookupKeys(k: XMLKey): (r: seq<XMLKey>)
    ensures |r| >= 1 && r[0] == k
    ensures forall i :: 0 <= i < |r| ==> r[i].kind == k.kind
    ensures Distinct(r)
  {
    if k.name != Star then
      if k.xmlns != Star then
        [k, XMLKey(k.kind, k.xmlns, Star), XMLKey(k.kind, Star, k.name), XMLKey(k.kind, Star, Star)]
      else [k, XMLKey(k.kind, k.xmlns, Star)]
    else if k.xmlns != Star then [k, XMLKey(k.kind, Star, k.name)]
    else [k]
  }

  /** The rule key `q` covers `k`: same kind, and each part equal or a
      wildcard. */
  predicate Covers(q: XMLKey, k: XMLKey)
  {
    q.kind == k.kind && (q.xmlns == k.xmlns || q.xmlns == Star) && (q.name == k.name || q.name == Star)
  }

  /** The lookup keys are exactly the keys that cover `k`: an element
      lookup never reaches an attribute rule, and no covering rule is
      missed. */
  lemma LookupKeysCover(k: XMLKey, q: XMLKey)
    ensures q in LookupKeys(k) <==> Covers(q, k)
  {
  }

  /** A more specific key comes earlier: every key that covers a later
      entry covers no earlier entry unless it is that entry. */
  lemma LookupKeysOrder(k: XMLKey, i: nat, j: nat)
    requires i < j < |LookupKeys(k)|
    ensures !Covers(LookupKeys(k)[i], LookupKeys(k)[j])
  {
  }

  // ---------------------------------------------------------------------
  // ConfigMap
  // ---------------------------------------------------------------------

  /** The `IConfigKey` operations of a key type. */
  datatype KeyOps<!K> = KeyOps(regKeys: K -> seq<(K, nat)>, parents: K -> seq<K>, lookups: K -> seq<K>)

  function XMLKeyOps(): KeyOps<XMLKey>
  {
    KeyOps(RegistrationKeys, ParentKeys, LookupKeys)
  }

  /** Providers are identified by number. */
  type Provider = nat

  /** A rule cell: the empty cell pinned for an undefined key, or a
      provider. */
  datatype Cell = EmptyCell | Rule(provider: Provider)

  /** The tables `registerProvider` writes, and the keys whose rule cell
      has been read: a cell that has been read refuses a new value. */
  datatype Tables<K> = Tables(rules: map<K, Cell>, depth: map<K, nat>, keyIndex: map<K, seq<K>>, read: set<K>)

  /** `_setCellInDict` at `key` raises `AlreadyRead`: its cell has been
      read, or it is the shared empty cell, which is read when it is
      made. */
  predicate Frozen<K>(t: Tables<K>, key: K)
  {
    key in t.read || (key in t.rules && t.rules[key].EmptyCell?)
  }

  /** `keyIndex.setdefault(p, {})[key] = True` for each parent `p`. */
  function Index<K>(keyIndex: map<K, seq<K>>, ps: seq<K>, key: K): (r: map<K, seq<K>>)
  {
    if ps == [] then keyIndex
    else
      var ix := Index(keyIndex, ps[..|ps| - 1], key);
      var p := ps[|ps| - 1];
      var old_ := if p in ix then ix[p] else [];
      ix[p := if key in old_ then old_ else old_ + [key]]
  }

  /** The registration at `key` replaces the stored rule: the new depth is
      at most the stored one, or there is none. */
  predicate Replaces<K>(t: Tables<K>, key: K, d: nat)
  {
    key !in t.depth || t.depth[key] >= d
  }

  /** One registration key; true in the second component means
      `AlreadyRead` was raised. A frozen cell raises after the key has
      been indexed. */
  function RegisterOne<K>(t: Tables<K>, locked: set<K>, key: K, d: nat, ops: KeyOps<K>, provider: Provider): (r: (Tables<K>, bool))
    ensures r.0.read == t.read
    ensures !r.1 && Replaces(t, key, d) ==> key in r.0.rules && r.0.rules[key] == Rule(provider)
    ensures forall k :: k in r.0.rules && r.0.rules[k].EmptyCell? ==> k in t.rules && t.rules[k].EmptyCell?
  {
    if !Replaces(t, key, d) then (t, false)
    else if exists i :: 0 <= i < |ops.parents(key)| && ops.parents(key)[i] in locked then (t, true)
    else
      var ix := Index(t.keyIndex, ops.parents(key), key);
      if Frozen(t, key) then (t.(keyIndex := ix), true)
      else (t.(rules := t.rules[key := Rule(provider)], depth := t.depth[key := d], keyIndex := ix), false)
  }

  /** `registerProvider(configKey, provider)` over the registration keys
      `regs`; it stops at the first `AlreadyRead`, keeping what it did
      before. It reads no cell. */
  function Register<K>(t: Tables<K>, locked: set<K>, regs: seq<(K, nat)>, ops: KeyOps<K>, provider: Provider): (r: (Tables<K>, bool))
    ensures r.0.read == t.read
  {
    if regs == [] then (t, false)
    else
      var r := Register(t, locked, regs[..|regs| - 1], ops, provider);
      if r.1 then r else RegisterOne(r.0, locked, regs[|regs| - 1].0, regs[|regs| - 1].1, ops, provider)
  }

  /** The first-match search of `_getConfigData` over the lookup keys:
      the value found (None for `NOT_FOUND`), the names seen without any
      rule, in order, and the names whose rule cell was read. `eval(p)` is
      what provider `p` answers. */
  function Search<K, V>(rules: map<K, Cell>, names: seq<K>, eval: Provider -> Option<V>): (Option<V>, seq<K>, set<K>)
  {
    if names == [] then (None, [], {})
    else
      var r := Search(rules, names[..|names| - 1], eval);
      var n := names[|names| - 1];
      if r.0.Some? then r
      else if n !in rules then (None, r.1 + [n], r.2)
      else match rules[n]
        case EmptyCell => r
        case Rule(p) => (eval(p), r.1, r.2 + {n})
  }

  /** A name whose rule gives a value. */
  predicate Hit<K, V>(rules: map<K, Cell>, n: K, eval: Provider -> Option<V>)
  {
    n in rules && rules[n].Rule? && eval(rules[n].provider).Some?
  }

  /** `rules.setdefault(name, _emptyRuleCell)` for every name in `xs`. */
  function Pin<K>(rules: map<K, Cell>, xs: seq<K>): (r: map<K, Cell>)
    ensures forall n :: n in rules ==> n in r && r[n] == rules[n]
    ensures forall n :: n in r && n !in rules ==> r[n] == EmptyCell
    ensures forall i :: 0 <= i < |xs| ==> xs[i] in r
    ensures forall n :: n in r ==> n in rules || n in xs
  {
    if xs == [] then rules
    else
      var p := Pin(rules, xs[..|xs| - 1]);
      var n := xs[|xs| - 1];
      assert forall i :: 0 <= i < |xs| - 1 ==> xs[i] == xs[..|xs| - 1][i];
      if n in p then p else p[n := EmptyCell]
  }

  /** The search finds a value exactly when some name hits, and then it is
      the value of the first name that hits. */
  lemma {:induction false} SearchFirstHit<K, V>(rules: map<K, Cell>, names: seq<K>, eval: Provider -> Option<V>)
    ensures Search(rules, names, eval).0.None? <==> forall i :: 0 <= i < |names| ==> !Hit(rules, names[i], eval)
    ensures forall i :: 0 <= i < |names| && Hit(rules, names[i], eval) && (forall j :: 0 <= j < i ==> !Hit(rules, names[j], eval)) ==>
      Search(rules, names, eval).0 == eval(rules[names[i]].provider)
  {
    if names != [] {
      var front := names[..|names| - 1];
      SearchFirstHit(rules, front, eval);
      assert forall i :: 0 <= i < |front| ==> front[i] == names[i];
    }
  }

  /** When nothing is found, the names pinned are exactly the lookup keys
      that had no rule. */
  lemma {:induction false} SearchNotFoundPins<K, V>(rules: map<K, Cell>, names: seq<K>, eval: Provider -> Option<V>, n: K)
    requires Search(rules, names, eval).0.None?
    ensures n in Search(rules, names, eval).1 <==> n in names && n !in rules
  {
    if names != [] {
      var front := names[..|names| - 1];
      SearchFirstHit(rules, names, eval);
      SearchFirstHit(rules, front, eval);
      SearchNotFoundPins(rules, front, eval, n);
      assert names == front + [names[|names| - 1]];
    }
  }

  /** Pinning makes no name hit or miss that did not before, so a second
      `_getConfigData` with the same rules gives the same answer. */
  lemma SearchAfterPin<K, V>(rules: map<K, Cell>, names: seq<K>, eval: Provider -> Option<V>)
    ensures Search(Pin(rules, Search(rules, names, eval).1), names, eval).0 == Search(rules, names, eval).0
  {
    var pinned := Pin(rules, Search(rules, names, eval).1);
    assert forall i :: 0 <= i < |names| ==> (Hit(pinned, names[i], eval) <==> Hit(rules, names[i], eval));
    SearchFirstHit(rules, names, eval);
    SearchFirstHit(pinned, names, eval);
    if Search(rules, names, eval).0.Some? {
      var i := FirstHitIndex(rules, names, eval, 0);
      assert rules[names[i]] == pinned[names[i]];
    }
  }

  /** The index of the first name that hits, searching from `from`. */
  lemma FirstHitIndex<K, V>(rules: map<K, Cell>, names: seq<K>, eval: Provider -> Option<V>, from: nat) returns (i: nat)
    requires from <= |names|
    requires forall j :: 0 <= j < from ==> !Hit(rules, names[j], eval)
    requires exists j :: from <= j < |names| && Hit(rules, names[j], eval)
    ensures from <= i < |names| && Hit(rules, names[i], eval)
    ensures forall j :: 0 <= j < i ==> !Hit(rules, names[j], eval)
    decreases |names| - from
  {
    if Hit(rules, names[from], eval) {
      i := from;
    } else {
      i := FirstHitIndex(rules, names, eval, from + 1);
    }
  }

  /** `ConfigMap`: the rule, depth and key-index tables, the keys whose
      rule cell has been read, and the set of namespaces already read. */
  class ConfigMap<K(==)> {
    var rules: map<K, Cell>
    var depth: map<K, nat>
    var keyIndex: map<K, seq<K>>
    var read: set<K>
    var locked: set<K>

    /** Every key with a depth holds a provider (pinned cells have no
        depth) and no key is indexed twice under one namespace. */
    ghost predicate Valid()
      reads this
    {
      && (forall k :: k in depth ==> k in rules && rules[k].Rule?)
      && (forall p :: p in keyIndex ==> Distinct(keyIndex[p]))
    }

    constructor ()
      ensures Valid()
      ensures rules == map[] && depth == map[] && keyIndex == map[] && read == {} && locked == {}
    {
      rules, depth, keyIndex, read, locked := map[], map[], map[], {}, {};
    }

    /** The inner loop of `registerProvider`. */
    method IndexUnder(ps: seq<K>, key: K)
      requires Valid()
      modifies this`keyIndex
      ensures Valid()
      ensures keyIndex == Index(old(keyIndex), ps, key)
    {
      var i := 0;
      while i < |ps|
        invariant 0 <= i <= |ps|
        invariant keyIndex == Index(old(keyIndex), ps[..i], key)
        invariant Valid()
      {
        assert ps[..i + 1][..i] == ps[..i];
        var p := ps[i];
        var cur := if p in keyIndex then keyIndex[p] else [];
        if key !in cur {
          cur := cur + [key];
        }
        keyIndex := keyIndex[p := cur];
        i := i + 1;
      }
      assert ps[..i] == ps;
    }

    /** `registerProvider(configKey, provider)`. */
    method RegisterProvider(configKey: K, provider: Provider, ops: KeyOps<K>) returns (err: Option<ConfigError>)
      requires Valid()
      modifies this`rules, this`depth, this`keyIndex
      ensures Valid()
      ensures var r := Register(old(Tables(rules, depth, keyIndex, read)), locked, ops.regKeys(configKey), ops, provider);
        Tables(rules, depth, keyIndex, read) == r.0 && (err == if r.1 then Some(AlreadyRead) else None)
    {
      var regs := ops.regKeys(configKey);
      ghost var t0 := Tables(rules, depth, keyIndex, read);
      var i := 0;
      while i < |regs|
        invariant 0 <= i <= |regs|
        invariant Register(t0, locked, regs[..i], ops, provider) == (Tables(rules, depth, keyIndex, read), false)
        invariant Valid()
      {
        assert regs[..i + 1][..i] == regs[..i];
        var (key, d) := regs[i];
        if key !in depth || depth[key] >= d {
          var ps := ops.parents(key);
          var j := 0;
          while j < |ps|
            invariant 0 <= j <= |ps|
            invariant forall m :: 0 <= m < j ==> ps[m] !in locked
          {
            if ps[j] in locked {
              RegisterFailed(t0, locked, regs, i + 1, ops, provider);
              return Some(AlreadyRead);
            }
            j := j + 1;
          }
          IndexUnder(ps, key);
          if key in read || (key in rules && rules[key].EmptyCell?) {
            RegisterFailed(t0, locked, regs, i + 1, ops, provider);
            return Some(AlreadyRead);
          }
          rules := rules[key := Rule(provider)];
          depth := depth[key := d];
        }
        i := i + 1;
      }
      assert regs[..i] == regs;
      return None;
    }

    /** `_configKeysMatching(configKey)`, run to the end: the keys indexed
        under each registration key, with those namespaces locked; with an
        empty index it yields nothing and locks nothing. */
    method KeysMatching(configKey: K, ops: KeyOps<K>) returns (keys: seq<K>)
      requires Valid()
      modifies this`locked
      ensures Valid()
      ensures keyIndex == map[] ==> keys == [] && locked == old(locked)
      ensures keyIndex != map[] ==> && keys == Matching(keyIndex, ops.regKeys(configKey))
                                    && locked == old(locked) + RegSet(ops.regKeys(configKey))
    {
      if keyIndex == map[] {
        return [];
      }
      var regs := ops.regKeys(configKey);
      keys := [];
      var i := 0;
      while i < |regs|
        invariant 0 <= i <= |regs|
        invariant keys == Matching(keyIndex, regs[..i])
        invariant locked == old(locked) + RegSet(regs[..i])
      {
        assert regs[..i + 1][..i] == regs[..i];
        var key := regs[i].0;
        locked := locked + {key};
        if key in keyIndex {
          keys := keys + keyIndex[key];
        }
        i := i + 1;
      }
      assert regs[..i] == regs;
    }

    /** `_getConfigData(forObj, configKey)`: the first value in lookup-key
        order; every lookup key seen without a rule is pinned to the empty
        cell, every rule cell asked is marked read, and no existing rule
        changes. */
    method GetConfigData<V>(configKey: K, ops: KeyOps<K>, eval: Provider -> Option<V>) returns (value: Option<V>)
      requires Valid()
      modifies this`rules, this`read
      ensures Valid()
      ensures value == Search(old(rules), ops.lookups(configKey), eval).0
      ensures rules == Pin(old(rules), Search(old(rules), ops.lookups(configKey), eval).1)
      ensures read == old(read) + Search(old(rules), ops.lookups(configKey), eval).2
    {
      var names := ops.lookups(configKey);
      value := None;
      var xs: seq<K> := [];
      ghost var asked: set<K> := {};
      var i := 0;
      while i < |names|
        invariant 0 <= i <= |names|
        invariant rules == old(rules)
        invariant read == old(read) + asked
        invariant value.None? && Search(rules, names[..i], eval) == (None, xs, asked)
      {
        assert names[..i + 1][..i] == names[..i];
        var n := names[i];
        if n !in rules {
          xs := xs + [n];
        } else if rules[n].Rule? {
          read := read + {n};
          asked := asked + {n};
          value := eval(rules[n].provider);
          if value.Some? {
            SearchKeepsHit(rules, names, i + 1, eval);
            break;
          }
        }
        i := i + 1;
      }
      if value.None? {
        assert names[..i] == names;
      }
      PinAll(xs);
    }

    /** The pinning loop of `_getConfigData`. */
    method PinAll(xs: seq<K>)
      requires Valid()
      modifies this`rules
      ensures Valid()
      ensures rules == Pin(old(rules), xs)
    {
      var i := 0;
      while i < |xs|
        invariant 0 <= i <= |xs|
        invariant rules == Pin(old(rules), xs[..i])
        invariant Valid()
      {
        assert xs[..i + 1][..i] == xs[..i];
        if xs[i] !in rules {
          rules := rules[xs[i] := EmptyCell];
        }
        i := i + 1;
      }
      assert xs[..i] == xs;
    }
  }

  /** The registration keys as a set. */
  function RegSet<K>(regs: seq<(K, nat)>): set<K>
  {
    set i | 0 <= i < |regs| :: regs[i].0
  }

  /** The keys indexed under the registration keys, one namespace after
      another. */
  function Matching<K>(keyIndex: map<K, seq<K>>, regs: seq<(K, nat)>): seq<K>
  {
    if regs == [] then []
    else Matching(keyIndex, regs[..|regs| - 1]) + (if regs[|regs| - 1].0 in keyIndex then keyIndex[regs[|regs| - 1].0] else [])
  }

  /** After a hit the search result does not change. */
  lemma {:induction false} SearchKeepsHit<K, V>(rules: map<K, Cell>, names: seq<K>, n: nat, eval: Provider -> Option<V>)
    requires n <= |names| && Search(rules, names[..n], eval).0.Some?
    ensures Search(rules, names, eval) == Search(rules, names[..n], eval)
    decreases |names| - n
  {
    if n < |names| {
      assert names[..n + 1][..n] == names[..n];
      SearchKeepsHit(rules, names, n + 1, eval);
    } else {
      assert names[..n] == names;
    }
  }

  /** After `AlreadyRead` the registration result does not change. */
  lemma {:induction false} RegisterFailed<K>(t: Tables<K>, locked: set<K>, regs: seq<(K, nat)>, n: nat, ops: KeyOps<K>, provider: Provider)
    requires n <= |regs| && Register(t, locked, regs[..n], ops, provider).1
    ensures Register(t, locked, regs, ops, provider) == Register(t, locked, regs[..n], ops, provider)
    decreases |regs| - n
  {
    if n < |regs| {
      assert regs[..n + 1][..n] == regs[..n];
      RegisterFailed(t, locked, regs, n + 1, ops, provider);
    } else {
      assert regs[..n] == regs;
    }
  }

  /** A successful registration leaves every registration key with a
      provider at a depth no greater than the one it was registered at,
      and never raises a stored depth. */
  lemma {:induction false} RegisterDepths<K>(t: Tables<K>, locked: set<K>, regs: seq<(K, nat)>, ops: KeyOps<K>, provider: Provider)
    requires !Register(t, locked, regs, ops, provider).1
    ensures forall i :: 0 <= i < |regs| ==>
      (regs[i].0 in Register(t, locked, regs, ops, provider).0.depth && Register(t, locked, regs, ops, provider).0.depth[regs[i].0] <= regs[i].1)
    ensures forall k :: k in t.depth ==>
      (k in Register(t, locked, regs, ops, provider).0.depth && Register(t, locked, regs, ops, provider).0.depth[k] <= t.depth[k])
  {
    if regs != [] {
      var front := regs[..|regs| - 1];
      RegisterDepths(t, locked, front, ops, provider);
      assert forall i :: 0 <= i < |front| ==> front[i] == regs[i];
    }
  }

  /** Keys that are not registration keys keep their rule and depth. */
  lemma {:induction false} RegisterOthers<K>(t: Tables<K>, locked: set<K>, regs: seq<(K, nat)>, ops: KeyOps<K>, provider: Provider, k: K)
    requires k !in RegSet(regs)
    ensures var t' := Register(t, locked, regs, ops, provider).0;
      (k in t'.rules <==> k in t.rules) && (k in t.rules ==> t'.rules[k] == t.rules[k])
      && (k in t'.depth <==> k in t.depth) && (k in t.depth ==> t'.depth[k] == t.depth[k])
  {
    if regs != [] {
      var front := regs[..|regs| - 1];
      assert RegSet(front) <= RegSet(regs) by {
        forall x | x in RegSet(front) ensures x in RegSet(regs) {
          var i :| 0 <= i < |front| && front[i].0 == x;
          assert regs[i] == front[i];
        }
      }
      RegisterOthers(t, locked, front, ops, provider, k);
      assert regs[|regs| - 1].0 in RegSet(regs);
    }
  }

  /** Once a namespace is locked, a registration whose first key would
      replace its rule and lies in that namespace raises `AlreadyRead`
      and changes nothing. */
  lemma LockedNamespaceRejects<K>(t: Tables<K>, locked: set<K>, regs: seq<(K, nat)>, ops: KeyOps<K>, provider: Provider, i: nat)
    requires |regs| >= 1 && Replaces(t, regs[0].0, regs[0].1)
    requires i < |ops.parents(regs[0].0)| && ops.parents(regs[0].0)[i] in locked
    ensures Register(t, locked, regs, ops, provider) == (t, true)
  {
    assert regs[..1][..0] == [];
    RegisterFailed(t, locked, regs, 1, ops, provider);
  }

  /** Registration freezes no cell: only a provider is ever stored. */
  lemma {:induction false} RegisterKeepsFrozen<K>(t: Tables<K>, locked: set<K>, regs: seq<(K, nat)>, ops: KeyOps<K>, provider: Provider, k: K)
    ensures Frozen(Register(t, locked, regs, ops, provider).0, k) ==> Frozen(t, k)
  {
    if regs != [] {
      RegisterKeepsFrozen(t, locked, regs[..|regs| - 1], ops, provider, k);
    }
  }

  /** With no namespace locked and no registration key's cell read or
      pinned, registration never raises. */
  lemma {:induction false} UnlockedRegisters<K>(t: Tables<K>, regs: seq<(K, nat)>, ops: KeyOps<K>, provider: Provider)
    requires forall i :: 0 <= i < |regs| ==> !Frozen(t, regs[i].0)
    ensures !Register(t, {}, regs, ops, provider).1
  {
    if regs != [] {
      var front := regs[..|regs| - 1];
      assert forall i :: 0 <= i < |front| ==> front[i] == regs[i];
      UnlockedRegisters(t, front, ops, provider);
      RegisterKeepsFrozen(t, {}, front, ops, provider, regs[|regs| - 1].0);
    }
  }

  /** An `XMLKey` is registered under itself, in no namespace: unless its
      cell has been read or pinned it succeeds, indexes nothing, and leaves
      a rule at depth 0; otherwise it raises `AlreadyRead` and changes
      nothing. */
  lemma XMLKeyRegisters(t: Tables<XMLKey>, locked: set<XMLKey>, k: XMLKey, provider: Provider)
    ensures !Frozen(t, k) ==>
      Register(t, locked, RegistrationKeys(k), XMLKeyOps(), provider) == (t.(rules := t.rules[k := Rule(provider)], depth := t.depth[k := 0]), false)
    ensures Frozen(t, k) ==> Register(t, locked, RegistrationKeys(k), XMLKeyOps(), provider) == (t, true)
  {
    var regs := RegistrationKeys(k);
    assert regs[..0] == [];
  }

  /** Every rule cell the search reads is a lookup key with a rule; the
      name that answers is among them, and when nothing answers every
      lookup key with a rule was read. */
  lemma {:induction false} SearchReads<K, V>(rules: map<K, Cell>, names: seq<K>, eval: Provider -> Option<V>, n: K)
    ensures n in Search(rules, names, eval).2 ==> n in names && n in rules && rules[n].Rule?
    ensures Search(rules, names, eval).0.None? ==> (n in Search(rules, names, eval).2 <==> n in names && n in rules && rules[n].Rule?)
    ensures forall i :: 0 <= i < |names| && Hit(rules, names[i], eval) && (forall j :: 0 <= j < i ==> !Hit(rules, names[j], eval)) ==>
      names[i] in Search(rules, names, eval).2
  {
    if names != [] {
      var front := names[..|names| - 1];
      SearchReads(rules, front, eval, n);
      SearchFirstHit(rules, front, eval);
      assert forall i :: 0 <= i < |front| ==> front[i] == names[i];
      assert names == front + [names[|names| - 1]];
      forall i | 0 <= i < |names| && Hit(rules, names[i], eval) && (forall j :: 0 <= j < i ==> !Hit(rules, names[j], eval))
        ensures names[i] in Search(rules, names, eval).2
      {
        if i < |front| {
          SearchReads(rules, front, eval, names[i]);
        }
      }
    }
  }

  /** A lookup that finds nothing pins the key it asked for, and a later
      registration of that key raises `AlreadyRead`: registering an
      `XMLKey` after it has been looked up is too late. */
  lemma TooLate(rules: map<XMLKey, Cell>, depth: map<XMLKey, nat>, read: set<XMLKey>, keyIndex: map<XMLKey, seq<XMLKey>>, locked: set<XMLKey>, k: XMLKey, eval: Provider -> Option<nat>, provider: Provider)
    requires k !in rules
    ensures var s := Search(rules, LookupKeys(k), eval);
      var t := Tables(Pin(rules, s.1), depth, keyIndex, read + s.2);
      Register(t, locked, RegistrationKeys(k), XMLKeyOps(), provider) == (t, true)
  {
    var s := Search(rules, LookupKeys(k), eval);
    assert LookupKeys(k)[..1] == [k];
    SearchPinsFirst(rules, LookupKeys(k), eval);
    XMLKeyRegisters(Tables(Pin(rules, s.1), depth, keyIndex, read + s.2), locked, k, provider);
  }

  /** The first lookup key, when it has no rule, is pinned. */
  lemma {:induction false} SearchPinsFirst<K, V>(rules: map<K, Cell>, names: seq<K>, eval: Provider -> Option<V>)
    requires |names| >= 1 && names[0] !in rules
    ensures names[0] in Search(rules, names, eval).1
  {
    if |names| > 1 {
      var front := names[..|names| - 1];
      SearchPinsFirst(rules, front, eval);
      SearchFirstHit(rules, front, eval);
      assert !Hit(rules, front[0], eval);
    }
  }

  /** A rule that answered a lookup is read, so registering over it raises
      `AlreadyRead`: a value once seen is never replaced. */
  lemma ReadRejects(t: Tables<XMLKey>, locked: set<XMLKey>, k: XMLKey, eval: Provider -> Option<nat>, provider: Provider)
    requires Hit(t.rules, k, eval)
    ensures var s := Search(t.rules, LookupKeys(k), eval);
      var t' := t.(rules := Pin(t.rules, s.1), read := t.read + s.2);
      s.0 == eval(t.rules[k].provider) && Register(t', locked, RegistrationKeys(k), XMLKeyOps(), provider) == (t', true)
  {
    var s := Search(t.rules, LookupKeys(k), eval);
    SearchFirstHit(t.rules, LookupKeys(k), eval);
    SearchReads(t.rules, LookupKeys(k), eval, k);
    XMLKeyRegisters(t.(rules := Pin(t.rules, s.1), read := t.read + s.2), locked, k, provider);
  }

  // ---------------------------------------------------------------------
  // lookup and iterKeys
  // ---------------------------------------------------------------------

  /** `lookup(component, configKey, default)`: `found[i]` is what the i-th
      component of the parent chain answers (None for `NOT_FOUND`, or for a
      component without configuration data). The first value found wins,
      then the default; without a default, `NameNotFound`. */
  function Lookup<V>(found: seq<Option<V>>, default: Option<V>): (r: Result<V, ConfigError>)
    ensures r.Err? <==> default.None? && forall i :: 0 <= i < |found| ==> found[i].None?
    ensures r.Err? ==> r.error == NameNotFound
    ensures forall i :: 0 <= i < |found| && found[i].Some? && (forall j :: 0 <= j < i ==> found[j].None?) ==> r == Ok(found[i].value)
    ensures (forall i :: 0 <= i < |found| ==> found[i].None?) && default.Some? ==> r == Ok(default.value)
  {
    if found == [] then
      if default.Some? then Ok(default.value) else Err(NameNotFound)
    else if found[0].Some? then Ok(found[0].value)
    else Lookup(found[1..], default)
  }

  /** `iterKeys(component, configKey)`: `sources[i]` is what the i-th
      configuration source on the parent chain yields; each key comes out
      once, where it first occurs. */
  method IterKeys<K(==)>(sources: seq<seq<K>>) returns (keys: seq<K>)
    ensures keys == Dedup(Flatten(sources))
  {
    keys := [];
    var yielded: set<K> := {};
    var i := 0;
    while i < |sources|
      invariant 0 <= i <= |sources|
      invariant keys == Dedup(Flatten(sources[..i]))
      invariant yielded == Elements(keys)
    {
      assert sources[..i + 1][..i] == sources[..i];
      keys, yielded := AddUnseen(Flatten(sources[..i]), keys, yielded, sources[i]);
      i := i + 1;
    }
    assert sources[..i] == sources;
  }

  /** The elements of a sequence, as a set. */
  function Elements<T>(s: seq<T>): set<T>
  {
    set i | 0 <= i < |s| :: s[i]
  }

  /** The inner loop of `iterKeys`: the keys of one source not yielded
      yet, appended in order. */
  method AddUnseen<K(==)>(ghost before: seq<K>, keys: seq<K>, yielded: set<K>, src: seq<K>)
    returns (keys': seq<K>, yielded': set<K>)
    requires keys == Dedup(before) && yielded == Elements(keys)
    ensures keys' == Dedup(before + src) && yielded' == Elements(keys')
  {
    keys', yielded' := keys, yielded;
    ghost var seen := before;
    var j := 0;
    while j < |src|
      invariant 0 <= j <= |src|
      invariant seen == before + src[..j]
      invariant keys' == Dedup(seen) && yielded' == Elements(keys')
    {
      var k := src[j];
      DedupSnoc(seen, k);
      assert k in yielded' <==> k in keys';
      if k !in yielded' {
        assert Elements(keys' + [k]) == Elements(keys') + {k} by {
          assert (keys' + [k])[|keys'|] == k;
          assert forall i :: 0 <= i < |keys'| ==> (keys' + [k])[i] == keys'[i];
        }
        keys', yielded' := keys' + [k], yielded' + {k};
      }
      assert src[..j + 1] == src[..j] + [k];
      seen, j := seen + [k], j + 1;
    }
    assert src[..j] == src;
  }

  /** The keys `iterKeys` yields are distinct and are exactly those some
      source yields. */
  lemma IterKeysMembers<K>(sources: seq<seq<K>>, k: K)
    ensures Distinct(Dedup(Flatten(sources)))
    ensures k in Dedup(Flatten(sources)) <==> exists i :: 0 <= i < |sources| && k in sources[i]
  {
    FlattenMembers(sources, k);
    DedupMembers(Flatten(sources));
  }

  // ---------------------------------------------------------------------
  // LazyRule
  // ---------------------------------------------------------------------

  /** `LazyRule(loadFunc)`: the loader runs at most once successfully. */
  class LazyRule {
    var loadNeeded: bool

    constructor ()
      ensures loadNeeded
    {
      loadNeeded := true;
    }

    /** A call: `load` is the loader's outcome (an error when it raises).
        The first call runs it; a failure re-arms the rule; any later call
        answers `NOT_FOUND` (None). */
    method Call<V>(load: Result<Option<V>, string>) returns (r: Result<Option<V>, string>)
      modifies this
      ensures old(loadNeeded) ==> r == load && (loadNeeded <==> load.Err?)
      ensures !old(loadNeeded) ==> r == Ok(None) && !loadNeeded
    {
      if loadNeeded {
        loadNeeded := false;
        if load.Err? {
          loadNeeded := true;
        }
        return load;
      }
      return Ok(None);
    }
  }

  // ---------------------------------------------------------------------
  // Namespace
  // ---------------------------------------------------------------------

  /** `key.endswith(c)`. */
  predicate EndsWith(key: string, c: char)
  {
    |key| > 0 && key[|key| - 1] == c
  }

  /** A key of `Namespace.keys` after the prefix is cut off: a trailing `?`
      is stripped, and a key ending in `*` is dropped (None). */
  function Suffix(key: string, prel: nat): (r: Option<string>)
    ensures r.Some? ==> !EndsWith(Drop(key, prel), '*')
    ensures r.None? <==> EndsWith(Drop(key, prel), '*')
    ensures r.Some? && !EndsWith(Drop(key, prel), '?') ==> r.value == Drop(key, prel)
    ensures r.Some? && EndsWith(Drop(key, prel), '?') ==> r.value + "?" == Drop(key, prel)
  {
    var k := Drop(key, prel);
    if EndsWith(k, '?') then Some(k[..|k| - 1])
    else if EndsWith(k, '*') then None
    else Some(k)
  }

  /** The suffixes kept, in order, before de-duplication. */
  function Suffixes(keys: seq<string>, prel: nat): seq<string>
  {
    if keys == [] then []
    else
      var front := Suffixes(keys[..|keys| - 1], prel);
      match Suffix(keys[|keys| - 1], prel)
      case None => front
      case Some(k) => front + [k]
  }

  /** `Namespace(prefix, target)`. */
  class Namespace<V(==)> {
    const prefix: string
    const hasTarget: bool
    const cache: bool
    var data: map<string, V>

    constructor (prefix: string, hasTarget: bool, cache: bool)
      ensures this.prefix == prefix && this.hasTarget == hasTarget && this.cache == cache && data == map[]
    {
      this.prefix, this.hasTarget, this.cache := prefix, hasTarget, cache;
      data := map[];
    }

    /** `get(key, default)`: `look(name)` is `lookup(target, name)` (None
        when nothing is found). A cached key is answered from the cache; a
        result other than the default is cached when caching is on. */
    method Get(key: string, default: V, look: string -> Option<V>) returns (r: V)
      modifies this`data
      ensures !hasTarget ==> r == default && data == old(data)
      ensures hasTarget && key in old(data) ==> r == old(data)[key] && data == old(data)
      ensures hasTarget && key !in old(data) ==>
        && r == (if look(prefix + key).Some? then look(prefix + key).value else default)
        && data == (if cache && r != default then old(data)[key := r] else old(data))
    {
      if !hasTarget {
        return default;
      }
      if key in data {
        return data[key];
      }
      var found := look(prefix + key);
      r := if found.Some? then found.value else default;
      if cache && r != default {
        data := data[key := r];
      }
    }

    /** `keys()`: `found` is what `iterKeys(target, prefix + '*')` yields. */
    method Keys(found: seq<string>) returns (items: seq<string>)
      ensures items == if hasTarget then Dedup(Suffixes(found, |prefix|)) else []
    {
      items := [];
      if !hasTarget {
        return;
      }
      var prel := |prefix|;
      var yielded: set<string> := {};
      var i := 0;
      while i < |found|
        invariant 0 <= i <= |found|
        invariant items == Dedup(Suffixes(found[..i], prel))
        invariant yielded == Elements(items)
      {
        assert found[..i + 1][..i] == found[..i];
        ghost var seen := Suffixes(found[..i], prel);
        var key := Drop(found[i], prel);
        var keep := true;
        if EndsWith(key, '?') {
          key := key[..|key| - 1];
        } else if EndsWith(key, '*') {
          keep := false;
        }
        assert keep ==> Suffixes(found[..i + 1], prel) == seen + [key];
        assert !keep ==> Suffixes(found[..i + 1], prel) == seen;
        if keep {
          DedupSnoc(seen, key);
          assert key in yielded <==> key in items;
          if key !in yielded {
            assert Elements(items + [key]) == Elements(items) + {key} by {
              assert (items + [key])[|items|] == key;
              assert forall j :: 0 <= j < |items| ==> (items + [key])[j] == items[j];
            }
            items, yielded := items + [key], yielded + {key};
          }
        }
        i := i + 1;
      }
      assert found[..i] == found;
    }
  }

  /** The keys of a namespace are distinct, and a key is listed exactly
      when some key found yields it. */
  lemma {:induction false} NamespaceKeys(found: seq<string>, prel: nat, k: string)
    ensures Distinct(Dedup(Suffixes(found, prel)))
    ensures k in Dedup(Suffixes(found, prel)) <==> exists i :: 0 <= i < |found| && Suffix(found[i], prel) == Some(k)
  {
    SuffixesMembers(found, prel, k);
    DedupMembers(Suffixes(found, prel));
  }

  lemma {:induction false} SuffixesMembers(found: seq<string>, prel: nat, k: string)
    ensures k in Suffixes(found, prel) <==> exists i :: 0 <= i < |found| && Suffix(found[i], prel) == Some(k)
  {
    if found != [] {
      var front := found[..|found| - 1];
      SuffixesMembers(front, prel, k);
      assert forall i :: 0 <= i < |front| ==> front[i] == found[i];
      if Suffix(found[|found| - 1], prel) == Some(k) {
        assert k in Suffixes(found, prel);
      }
    }
  }
}
