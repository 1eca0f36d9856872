/** Command-line option metadata of `peak/running/options.py`: validation
    of an option's declaration, conversion of its argument, the rule that a
    non-repeatable option is used at most once per parse, the collection of
    a class's options into a parser, and the parser's exit hook. */
module Options {
  import opened Base

  // ---------------------------------------------------------------------
  // Declarations
  // ---------------------------------------------------------------------

  /** The option classes: `Set`, `Add`, `Append` and `Handler`. */
  datatype Kind = SetKind | AddKind | AppendKind | HandlerKind

  /** The class default of `repeatable`: only `Add` and `Append` may be
      used more than once per parse unless declared otherwise. */
  predicate RepeatableByDefault(k: Kind)
  {
    k == AddKind || k == AppendKind
  }

  /** Option values: the results of the option types and the constants
      options are declared with. */
  datatype Value = Int(i: int) | Text(s: string) | List(items: seq<Value>) | Nothing

  /** A `Group` of options under one heading; `stable` is the creation key
      `_gen_key` gave it. */
  datatype Group = Group(title: string, description: Option<string>, sortKey: int, stable: nat)

  /** An option as declared: `repeatable` says whether it may be used
      more than once per parse, `typeName` is the name of its type (none
      when it has a constant `value` instead), `stable` its creation key. */
  datatype Opt = Opt(kind: Kind, repeatable: bool, names: seq<string>, typeName: Option<string>, value: Option<Value>,
                     metavar: Option<string>, nargs: nat, help: Option<string>, group: Option<Group>,
                     sortKey: int, stable: nat)

  /** The errors of a declaration: `TypeError` for no names, for both or
      neither of type and value, and for a `metavar` without a type;
      `ValueError` for a bad name. */
  datatype DeclError = NoNames | InvalidName(name: string) | TypeXorValue | MetavarWithoutType

  /** An option name starts with `-` but not with `---`. */
  predicate ValidName(n: string)
  {
    IsPrefix("-", n) && !IsPrefix("---", n)
  }

  /** The first name that is not valid. */
  function FirstInvalid(names: seq<string>): (r: Option<string>)
    ensures r.None? <==> forall i :: 0 <= i < |names| ==> ValidName(names[i])
    ensures r.Some? ==>
      exists i :: 0 <= i < |names| && names[i] == r.value && !ValidName(r.value) && forall j :: 0 <= j < i ==> ValidName(names[j])
    decreases |names|
  {
    if names == [] then None
    else if !ValidName(names[0]) then Some(names[0])
    else
      var r := FirstInvalid(names[1..]);
      assert forall j :: 1 <= j < |names| ==> names[j] == names[1..][j - 1];
      r
  }

  /** `AbstractOption.__init__`: the option, with `nargs` and the default
      `metavar` filled in, or the error it raises. The keyword arguments
      it sets as attributes are the parameters from `typeName` to
      `repeatable`, none meaning not given; `stable` is the key `_gen_key`
      yields. */
  function Declare(kind: Kind, names: seq<string>, typeName: Option<string>, value: Option<Value>,
                   metavar: Option<string>, help: Option<string>, group: Option<Group>, sortKey: int,
                   repeatable: Option<bool>, stable: nat)
    : Result<Opt, DeclError>
  {
    var rep := if repeatable.Some? then repeatable.value else RepeatableByDefault(kind);
    if names == [] then Err(NoNames)
    else if FirstInvalid(names).Some? then Err(InvalidName(FirstInvalid(names).value))
    else if typeName.None? == value.None? then Err(TypeXorValue)
    else if typeName.None? && metavar.Some? then Err(MetavarWithoutType)
    else if typeName.Some? then
      Ok(Opt(kind, rep, names, typeName, value, if metavar.None? then Some(Upper(typeName.value)) else metavar,
             1, help, group, sortKey, stable))
    else Ok(Opt(kind, rep, names, typeName, value, metavar, 0, help, group, sortKey, stable))
  }

  /** A declaration is accepted exactly when it has names, all valid, and
      exactly one of a type and a value, and no `metavar` without a type;
      an option with a type takes one argument, named by default after the
      type in upper case, and one with a value takes none. */
  lemma DeclareRules(kind: Kind, names: seq<string>, typeName: Option<string>, value: Option<Value>,
                     metavar: Option<string>, help: Option<string>, group: Option<Group>, sortKey: int,
                     repeatable: Option<bool>, stable: nat)
    ensures var r := Declare(kind, names, typeName, value, metavar, help, group, sortKey, repeatable, stable);
      && (r.Ok? <==> names != [] && (forall i :: 0 <= i < |names| ==> ValidName(names[i]))
                     && typeName.Some? != value.Some? && (typeName.None? ==> metavar.None?))
      && (names == [] ==> r == Err(NoNames))
      && (r.Err? && r.error.InvalidName? ==> r.error.name in names && !ValidName(r.error.name))
      && (r.Ok? ==>
            && r.value.names == names && r.value.kind == kind && r.value.stable == stable
            && r.value.nargs == (if typeName.Some? then 1 else 0)
            && (typeName.Some? && metavar.None? ==> r.value.metavar == Some(Upper(typeName.value)))
            && (metavar.Some? ==> r.value.metavar == metavar)
            && r.value.repeatable == (if repeatable.Some? then repeatable.value else RepeatableByDefault(kind)))
  {
  }

  /** `-x` and `--long` are names; `---x`, `x` and `` are not. */
  lemma NameExamples()
    ensures ValidName("-x") && ValidName("--long")
    ensures !ValidName("---x") && !ValidName("x") && !ValidName("")
  {
    assert "---x"[..3] == "---";
    assert "x"[..1] != "-" by { assert "x"[0] == 'x'; }
    assert "--long"[..3] != "---" by { assert "--long"[2] == 'l'; }
  }

  /** Creation keys: each one drawn is greater than all drawn before. */
  class KeyCounter {
    var count: nat

    constructor ()
      ensures count == 0
    {
      count := 0;
    }

    /** `_gen_key()`. */
    method GenKey() returns (k: nat)
      modifies this
      ensures k == old(count) + 1 && count == k
    {
      count := count + 1;
      k := count;
    }
  }

  // ---------------------------------------------------------------------
  // Parsing
  // ---------------------------------------------------------------------

  /** The errors of a parse (`InvocationError`, and the errors the
      callbacks' attribute arithmetic raises). */
  datatype ParseError = NotValid(option: string, raw: string, metavar: Option<string>) | UsedTwice(option: string)
                      | MissingAttribute(attr: string) | CannotAdd(attr: string) | CannotAppend(attr: string)

  /** `convert(option, value)`: the constant when there is one, else the
      argument converted by the option's type (`parse`, none for a
      `ValueError`). */
  function Convert(o: Opt, option: string, raw: string, parse: string -> Option<Value>): (r: Result<Value, ParseError>)
    ensures o.value.Some? ==> r == Ok(o.value.value)
    ensures o.value.None? ==> (r.Ok? <==> parse(raw).Some?) && (r.Ok? ==> r.value == parse(raw).value)
    ensures r.Err? ==> r.error == NotValid(option, raw, o.metavar)
  {
    if o.value.Some? then Ok(o.value.value)
    else if parse(raw).Some? then Ok(parse(raw).value)
    else Err(NotValid(option, raw, o.metavar))
  }

  function Count(counts: map<nat, nat>, id: nat): nat
  {
    if id in counts then counts[id] else 0
  }

  /** `check_repeat(option, parser)` on the parser's use counts. */
  function Repeat(counts: map<nat, nat>, o: Opt, option: string): (r: (map<nat, nat>, Result<(), ParseError>))
    ensures o.repeatable ==> r == (counts, Ok(()))
    ensures !o.repeatable ==> Count(r.0, o.stable) == Count(counts, o.stable) + 1
    ensures !o.repeatable ==> (r.1.Err? <==> Count(counts, o.stable) >= 1)
    ensures r.1.Err? ==> r.1.error == UsedTwice(option)
    ensures forall id :: id != o.stable ==> Count(r.0, id) == Count(counts, id)
  {
    if o.repeatable then (counts, Ok(()))
    else
      var c := Count(counts, o.stable) + 1;
      (counts[o.stable := c], if c > 1 then Err(UsedTwice(option)) else Ok(()))
  }

  /** `a + b` on option values. */
  function Plus(a: Value, b: Value): Option<Value>
  {
    match (a, b)
    case (Int(x), Int(y)) => Some(Int(x + y))
    case (Text(x), Text(y)) => Some(Text(x + y))
    case (List(x), List(y)) => Some(List(x + y))
    case _ => None
  }

  /** The callback of an option for one use: the new use counts, the new
      attribute values and the outcome. A `Handler`'s function is not
      modelled: its use only counts. */
  function Callback(counts: map<nat, nat>, values: map<string, Value>, o: Opt, option: string, attr: string,
                    raw: string, parse: string -> Option<Value>): (r: (map<nat, nat>, map<string, Value>, Result<(), ParseError>))
    ensures r.0 == Repeat(counts, o, option).0
    ensures Repeat(counts, o, option).1.Err? ==> r.1 == values && r.2 == Repeat(counts, o, option).1
    ensures r.2.Err? || o.kind == HandlerKind ==> r.1 == values
    ensures forall k :: k != attr ==> (k in r.1 <==> k in values) && (k in values ==> r.1[k] == values[k])
    ensures r.2.Ok? && o.kind != HandlerKind ==> attr in r.1
  {
    var (counts', rep) := Repeat(counts, o, option);
    if rep.Err? then (counts', values, rep)
    else match o.kind
      case SetKind =>
        var v := Convert(o, option, raw, parse);
        if v.Err? then (counts', values, Err(v.error)) else (counts', values[attr := v.value], Ok(()))
      case AddKind =>
        if attr !in values then (counts', values, Err(MissingAttribute(attr)))
        else
          var v := Convert(o, option, raw, parse);
          if v.Err? then (counts', values, Err(v.error))
          else if Plus(values[attr], v.value).None? then (counts', values, Err(CannotAdd(attr)))
          else (counts', values[attr := Plus(values[attr], v.value).value], Ok(()))
      case AppendKind =>
        if attr !in values || !values[attr].List? then (counts', values, Err(CannotAppend(attr)))
        else
          var v := Convert(o, option, raw, parse);
          if v.Err? then (counts', values, Err(v.error))
          else (counts', values[attr := List(values[attr].items + [v.value])], Ok(()))
      case HandlerKind =>
        var v := Convert(o, option, raw, parse);
        if v.Err? then (counts', values, Err(v.error)) else (counts', values, Ok(()))
  }

  /** The parser state the callbacks change. */
  class OptionParser {
    var useCounts: map<nat, nat>
    var values: map<string, Value>

    constructor (values: map<string, Value>)
      ensures useCounts == map[] && this.values == values
    {
      useCounts := map[];
      this.values := values;
    }

    /** `check_repeat(option, parser)`. */
    method CheckRepeat(o: Opt, option: string) returns (r: Result<(), ParseError>)
      modifies this`useCounts
      ensures (useCounts, r) == Repeat(old(useCounts), o, option)
    {
      if !o.repeatable {
        var count := Count(useCounts, o.stable) + 1;
        useCounts := useCounts[o.stable := count];
        if count > 1 {
          return Err(UsedTwice(option));
        }
      }
      return Ok(());
    }

    /** The `callback` of `Set`, `Add`, `Append` and `Handler`. */
    method Use(o: Opt, option: string, attr: string, raw: string, parse: string -> Option<Value>) returns (r: Result<(), ParseError>)
      modifies this
      ensures (useCounts, values, r) == Callback(old(useCounts), old(values), o, option, attr, raw, parse)
    {
      r := CheckRepeat(o, option);
      if r.Err? {
        return;
      }
      match o.kind {
        case SetKind =>
          var v := Convert(o, option, raw, parse);
          if v.Err? {
            return Err(v.error);
          }
          values := values[attr := v.value];
        case AddKind =>
          if attr !in values {
            return Err(MissingAttribute(attr));
          }
          var v := Convert(o, option, raw, parse);
          if v.Err? {
            return Err(v.error);
          }
          var sum := Plus(values[attr], v.value);
          if sum.None? {
            return Err(CannotAdd(attr));
          }
          values := values[attr := sum.value];
        case AppendKind =>
          if attr !in values || !values[attr].List? {
            return Err(CannotAppend(attr));
          }
          var v := Convert(o, option, raw, parse);
          if v.Err? {
            return Err(v.error);
          }
          values := values[attr := List(values[attr].items + [v.value])];
        case HandlerKind =>
          var v := Convert(o, option, raw, parse);
          if v.Err? {
            return Err(v.error);
          }
      }
      return Ok(());
    }
  }

  /** The repeat checks of the uses of one parse, in order, from fresh
      counts: the counts at the end, or the index of the use refused. */
  function RepeatRun(uses: seq<Opt>): Result<map<nat, nat>, nat>
    decreases |uses|
  {
    if uses == [] then Ok(map[])
    else
      var n := |uses| - 1;
      var front := RepeatRun(uses[..n]);
      if front.Err? then front
      else
        var (c, r) := Repeat(front.value, uses[n], "");
        if r.Err? then Err(n) else Ok(c)
  }

  /** Distinct options have distinct creation keys. */
  predicate KeysIdentify(uses: seq<Opt>)
  {
    forall i, j :: 0 <= i < |uses| && 0 <= j < |uses| && uses[i].stable == uses[j].stable ==> uses[i] == uses[j]
  }

  /** No non-repeatable option is used after an earlier use of itself. */
  predicate NoRepeat(uses: seq<Opt>)
  {
    forall i, j :: 0 <= i < j < |uses| && !uses[j].repeatable ==> uses[i].stable != uses[j].stable
  }

  /** A non-repeatable option with key `id` is among the uses. */
  predicate Used(uses: seq<Opt>, id: nat)
  {
    exists i :: 0 <= i < |uses| && uses[i].stable == id && !uses[i].repeatable
  }

  lemma UsedSnoc(uses: seq<Opt>, id: nat)
    requires uses != []
    ensures var n := |uses| - 1;
      Used(uses, id) <==> Used(uses[..n], id) || (uses[n].stable == id && !uses[n].repeatable)
  {
    var n := |uses| - 1;
    if Used(uses, id) {
      var i :| 0 <= i < |uses| && uses[i].stable == id && !uses[i].repeatable;
      if i < n {
        assert uses[..n][i] == uses[i];
      }
    }
    if Used(uses[..n], id) {
      var i :| 0 <= i < n && uses[..n][i].stable == id && !uses[..n][i].repeatable;
      assert uses[i] == uses[..n][i];
    }
  }

  /** One step of `OnlyOnce`: the last use is refused exactly when it is
      of a non-repeatable option already used. */
  lemma {:induction false} RepeatStep(uses: seq<Opt>, c: map<nat, nat>)
    requires uses != [] && KeysIdentify(uses)
    requires NoRepeat(uses[..|uses| - 1])
    requires forall id :: Count(c, id) > 0 <==> Used(uses[..|uses| - 1], id)
    ensures var (c', r) := Repeat(c, uses[|uses| - 1], "");
      && (r.Err? <==> !NoRepeat(uses))
      && (r.Ok? ==> forall id :: Count(c', id) > 0 <==> Used(uses, id))
  {
    var n := |uses| - 1;
    var o := uses[n];
    var (c', r) := Repeat(c, o, "");
    UsedSnoc(uses, o.stable);
    if !NoRepeat(uses) {
      var i, j :| 0 <= i < j < |uses| && !uses[j].repeatable && uses[i].stable == uses[j].stable;
      if j == n {
        assert uses[i] == uses[j];
        assert uses[..n][i] == uses[i];
      }
    }
    if r.Ok? {
      forall id
        ensures Count(c', id) > 0 <==> Used(uses, id)
      {
        UsedSnoc(uses, id);
        if o.repeatable {
          assert c' == c;
        } else if id == o.stable {
          assert Count(c', id) == Count(c, id) + 1;
        } else {
          assert Count(c', id) == Count(c, id);
        }
      }
    }
  }

  /** Within one parse, a use of a non-repeatable option (by default
      `Set` and `Handler`) after an earlier use of the same option is
      refused, and the first such use is the one refused; repeatable
      options (by default `Add` and `Append`) are never refused. */
  lemma {:induction false} OnlyOnce(uses: seq<Opt>)
    requires KeysIdentify(uses)
    ensures RepeatRun(uses).Ok? <==> NoRepeat(uses)
    ensures RepeatRun(uses).Ok? ==> forall id :: Count(RepeatRun(uses).value, id) > 0 <==> Used(uses, id)
    ensures RepeatRun(uses).Err? ==> var j := RepeatRun(uses).error;
      j < |uses| && NoRepeat(uses[..j]) && !NoRepeat(uses[..j + 1])
    decreases |uses|
  {
    if uses != [] {
      var n := |uses| - 1;
      var front := uses[..n];
      KeysIdentifyPrefix(uses, n);
      OnlyOnce(front);
      assert uses[..n] == front;
      if RepeatRun(front).Err? {
        assert RepeatRun(uses) == RepeatRun(front);
        var j := RepeatRun(front).error;
        assert front[..j] == uses[..j] && front[..j + 1] == uses[..j + 1];
        if NoRepeat(uses) {
          NoRepeatPrefix(uses, n);
        }
      } else {
        var (c, r) := Repeat(RepeatRun(front).value, uses[n], "");
        assert RepeatRun(uses) == if r.Err? then Err(n) else Ok(c);
        RepeatStep(uses, RepeatRun(front).value);
        assert uses[..n + 1] == uses;
      }
    }
  }

  lemma KeysIdentifyPrefix(uses: seq<Opt>, k: nat)
    requires k <= |uses| && KeysIdentify(uses)
    ensures KeysIdentify(uses[..k])
  {
    forall i, j | 0 <= i < k && 0 <= j < k && uses[..k][i].stable == uses[..k][j].stable
      ensures uses[..k][i] == uses[..k][j]
    {
      assert uses[..k][i] == uses[i] && uses[..k][j] == uses[j];
    }
  }

  lemma NoRepeatPrefix(uses: seq<Opt>, k: nat)
    requires k <= |uses| && NoRepeat(uses)
    ensures NoRepeat(uses[..k])
  {
    forall i, j | 0 <= i < j < k && !uses[..k][j].repeatable
      ensures uses[..k][i].stable != uses[..k][j].stable
    {
      assert uses[..k][i] == uses[i] && uses[..k][j] == uses[j];
    }
  }

  // ---------------------------------------------------------------------
  // make_parser
  // ---------------------------------------------------------------------

  /** A registered option name: its attribute and its option, none when
      inheritance of the name is rejected. */
  type Info = (string, (string, Option<Opt>))

  /** The option each name maps to; a later registration of a name wins. */
  function OptMap(info: seq<Info>): map<string, Opt>
    decreases |info|
  {
    if info == [] then map[]
    else
      var last := info[|info| - 1];
      var m := OptMap(info[..|info| - 1]);
      if last.1.1.Some? then m[last.0 := last.1.1.value] else m
  }

  /** A name maps to the option of its last registration that has one,
      and only registered names map to anything. */
  lemma {:induction false} OptMapLastWins(info: seq<Info>, n: string)
    ensures n in OptMap(info) <==> exists i :: 0 <= i < |info| && info[i].0 == n && info[i].1.1.Some?
    ensures n in OptMap(info) ==>
      exists i :: 0 <= i < |info| && info[i].0 == n && info[i].1.1 == Some(OptMap(info)[n])
        && forall j :: i < j < |info| ==> info[j].0 != n || info[j].1.1.None?
    decreases |info|
  {
    if info != [] {
      var k := |info| - 1;
      var front := info[..k];
      OptMapLastWins(front, n);
      forall i | 0 <= i < k
        ensures info[i] == front[i]
      {
      }
      if !(info[k].0 == n && info[k].1.1.Some?) && n in OptMap(info) {
        var i :| 0 <= i < k && front[i].0 == n && front[i].1.1 == Some(OptMap(front)[n])
          && forall j :: i < j < k ==> front[j].0 != n || front[j].1.1.None?;
        assert info[i].1.1 == Some(OptMap(info)[n]);
      }
    }
  }

  /** The names among `names` that still map to `o` (`makeOption` with an
      option map). */
  function KeptNames(names: seq<string>, o: Opt, m: map<string, Opt>): (r: seq<string>)
    ensures forall n :: n in r <==> n in names && n in m && m[n] == o
    decreases |names|
  {
    if names == [] then []
    else
      var rest := KeptNames(names[1..], o, m);
      var n := names[0];
      assert forall x :: x in names <==> x == n || x in names[1..];
      if n in m && m[n] == o then [n] + rest else rest
  }

  /** An optparse option: the names it answers to, the attribute its
      callback sets, and the declaration it comes from. */
  datatype Entry = Entry(names: seq<string>, attr: string, opt: Opt)

  function OptsOf(es: seq<Entry>): set<Opt>
  {
    set e | e in es :: e.opt
  }

  /** The entry a registration adds when its option is not collected yet. */
  function NewEntry(reg: (string, Option<Opt>), m: map<string, Opt>): Entry
    requires reg.1.Some?
  {
    Entry(KeptNames(reg.1.value.names, reg.1.value, m), reg.0, reg.1.value)
  }

  /** The entries `make_parser` collects, in registration order: each
      option once, at its first registration, with its kept names. */
  function Collected(info: seq<Info>, m: map<string, Opt>): (r: seq<Entry>)
    ensures |r| <= |info|
    decreases |info|
  {
    if info == [] then []
    else
      var last := info[|info| - 1];
      var c := Collected(info[..|info| - 1], m);
      if last.1.1.None? || last.1.1.value in OptsOf(c) then c
      else c + [NewEntry(last.1, m)]
  }

  /** Option `o` is registered by some entry of `info`. */
  predicate Registered(info: seq<Info>, o: Opt)
  {
    exists i :: 0 <= i < |info| && info[i].1.1 == Some(o)
  }

  lemma RegisteredSnoc(info: seq<Info>, o: Opt)
    requires info != []
    ensures Registered(info, o) <==> Registered(info[..|info| - 1], o) || info[|info| - 1].1.1 == Some(o)
  {
    var n := |info| - 1;
    if Registered(info, o) {
      var i :| 0 <= i < |info| && info[i].1.1 == Some(o);
      if i < n {
        assert info[..n][i] == info[i];
      }
    }
    if Registered(info[..n], o) {
      var i :| 0 <= i < n && info[..n][i].1.1 == Some(o);
      assert info[i] == info[..n][i];
    }
  }

  /** Exactly the registered options are collected. */
  lemma {:induction false} CollectedOptions(info: seq<Info>, m: map<string, Opt>, o: Opt)
    ensures o in OptsOf(Collected(info, m)) <==> Registered(info, o)
    decreases |info|
  {
    if info != [] {
      var n := |info| - 1;
      CollectedOptions(info[..n], m, o);
      RegisteredSnoc(info, o);
      var c := Collected(info[..n], m);
      var last := info[n];
      if !(last.1.1.None? || last.1.1.value in OptsOf(c)) {
        assert OptsOf(c + [NewEntry(last.1, m)]) == OptsOf(c) + {last.1.1.value};
      }
    }
  }

  /** No option is collected twice. */
  lemma {:induction false} CollectedOnce(info: seq<Info>, m: map<string, Opt>)
    ensures forall i, j :: 0 <= i < j < |Collected(info, m)| ==> Collected(info, m)[i].opt != Collected(info, m)[j].opt
    decreases |info|
  {
    if info != [] {
      var n := |info| - 1;
      CollectedOnce(info[..n], m);
      var c := Collected(info[..n], m);
      var last := info[n];
      if !(last.1.1.None? || last.1.1.value in OptsOf(c)) {
        var c' := c + [NewEntry(last.1, m)];
        forall i, j | 0 <= i < j < |c'|
          ensures c'[i].opt != c'[j].opt
        {
          if j == |c| {
            assert c[i] in c;
          }
        }
      }
    }
  }

  /** Each collected entry has the kept names of its option and the
      attribute of the option's first registration. */
  lemma {:induction false} CollectedEntries(info: seq<Info>, m: map<string, Opt>, e: Entry)
    requires e in Collected(info, m)
    ensures e.names == KeptNames(e.opt.names, e.opt, m)
    ensures exists i :: 0 <= i < |info| && info[i].1 == (e.attr, Some(e.opt)) && !Registered(info[..i], e.opt)
    decreases |info|
  {
    var n := |info| - 1;
    var c := Collected(info[..n], m);
    var last := info[n];
    if e in c {
      CollectedEntries(info[..n], m, e);
      var i :| 0 <= i < n && info[..n][i].1 == (e.attr, Some(e.opt)) && !Registered(info[..n][..i], e.opt);
      assert info[..n][..i] == info[..i] && info[..n][i] == info[i];
    } else {
      assert e == NewEntry(last.1, m);
      CollectedOptions(info[..n], m, e.opt);
      assert info[..n][..n] == info[..n];
    }
  }

  /** Python's ordering of `(sortKey, sort_stable)` keys. */
  predicate KeyLe(a: (int, nat), b: (int, nat))
  {
    a.0 < b.0 || (a.0 == b.0 && a.1 <= b.1)
  }

  /** Entries ordered by their option's `(sortKey, sort_stable)`. */
  predicate EntryLe(a: Entry, b: Entry)
  {
    KeyLe((a.opt.sortKey, a.opt.stable), (b.opt.sortKey, b.opt.stable))
  }

  /** Groups ordered by their `(sortKey, sort_stable)`. */
  predicate GroupLe(a: (Group, seq<Entry>), b: (Group, seq<Entry>))
  {
    KeyLe((a.0.sortKey, a.0.stable), (b.0.sortKey, b.0.stable))
  }

  /** Both orders compare any two entries or groups, so sorting by them
      gives sorted lists. */
  lemma OrdersTotal()
    ensures Total(EntryLe) && Total(GroupLe)
  {
  }

  /** The entries of one group, in collection order. */
  function InGroup(es: seq<Entry>, g: Option<Group>): seq<Entry>
    decreases |es|
  {
    if es == [] then []
    else
      var r := InGroup(es[..|es| - 1], g);
      var e := es[|es| - 1];
      if e.opt.group == g then r + [e] else r
  }

  lemma InGroupSnoc(es: seq<Entry>, e: Entry, g: Option<Group>)
    ensures InGroup(es + [e], g) == InGroup(es, g) + (if e.opt.group == g then [e] else [])
  {
    assert (es + [e])[..|es|] == es;
  }

  /** A group's entries are exactly the collected entries of that group. */
  lemma {:induction false} InGroupMembers(es: seq<Entry>, g: Option<Group>, e: Entry)
    ensures e in InGroup(es, g) <==> e in es && e.opt.group == g
    decreases |es|
  {
    if es != [] {
      var front := es[..|es| - 1];
      InGroupMembers(front, g, e);
      assert es == front + [es[|es| - 1]];
    }
  }

  function Lists(lists: map<Option<Group>, seq<Entry>>, g: Option<Group>): seq<Entry>
  {
    if g in lists then lists[g] else []
  }

  /** Appending an entry to its group's list keeps the lists equal to the
      entries of each group. */
  lemma ListsAppend(lists: map<Option<Group>, seq<Entry>>, c: seq<Entry>, e: Entry)
    requires forall g :: Lists(lists, g) == InGroup(c, g)
    ensures forall g :: Lists(lists[e.opt.group := Lists(lists, e.opt.group) + [e]], g) == InGroup(c + [e], g)
  {
    forall g
      ensures InGroup(c + [e], g) == InGroup(c, g) + (if e.opt.group == g then [e] else [])
    {
      InGroupSnoc(c, e, g);
    }
  }

  /** What `make_parser` adds to the parser: its own options, and each
      group with its options. */
  datatype Layout = Layout(options: seq<Entry>, groups: seq<(Group, seq<Entry>)>)

  /** The registration loop of `make_parser`: the option lists per group. */
  method CollectLists(info: seq<Info>) returns (lists: map<Option<Group>, seq<Entry>>)
    ensures forall g :: Lists(lists, g) == InGroup(Collected(info, OptMap(info)), g)
    ensures forall g :: g in lists ==> lists[g] != []
  {
    var m := OptMap(info);
    var used: set<Opt> := {};
    lists := map[];
    var i := 0;
    while i < |info|
      invariant i <= |info|
      invariant used == OptsOf(Collected(info[..i], m))
      invariant forall g :: Lists(lists, g) == InGroup(Collected(info[..i], m), g)
      invariant forall g :: g in lists ==> lists[g] != []
    {
      var (optname, (attrname, option)) := info[i];
      ghost var c := Collected(info[..i], m);
      assert info[..i + 1][..i] == info[..i] && info[..i + 1][i] == info[i];
      if option.Some? && option.value !in used {
        var o := option.value;
        var e := Entry(KeptNames(o.names, o, m), attrname, o);
        assert Collected(info[..i + 1], m) == c + [e];
        assert OptsOf(c + [e]) == used + {o};
        ListsAppend(lists, c, e);
        lists := lists[o.group := Lists(lists, o.group) + [e]];
        used := used + {o};
      } else {
        assert Collected(info[..i + 1], m) == c;
      }
      i := i + 1;
    }
    assert info[..i] == info;
  }

  /** The loop over the option lists of `make_parser`: each group's
      options sorted, in whatever order the dictionary yields the groups. */
  method GroupLists(lists: map<Option<Group>, seq<Entry>>) returns (groups: seq<(Group, seq<Entry>)>)
    ensures Distinct(groups)
    ensures forall p :: p in groups <==> Some(p.0) in lists && p.1 == Sort(lists[Some(p.0)], EntryLe)
  {
    var pending := lists.Keys;
    groups := [];
    while pending != {}
      invariant pending <= lists.Keys
      invariant Distinct(groups)
      invariant forall k :: 0 <= k < |groups| ==> Some(groups[k].0) in lists.Keys - pending
      invariant forall p :: p in groups <==> Some(p.0) in lists.Keys - pending && p.1 == Sort(lists[Some(p.0)], EntryLe)
      decreases pending
    {
      var g :| g in pending;
      pending := pending - {g};
      if g.Some? {
        var p := (g.value, Sort(lists[g], EntryLe));
        groups := groups + [p];
      }
    }
  }

  /** `make_parser`'s layout: its own options sorted by key, and the groups
      sorted by key, each with its options sorted by key. */
  method MakeParser(info: seq<Info>) returns (layout: Layout)
    ensures layout.options == Sort(InGroup(Collected(info, OptMap(info)), None), EntryLe)
    ensures SortedBy(layout.options, EntryLe)
    ensures SortedBy(layout.groups, GroupLe)
    ensures Distinct(layout.groups)
    ensures forall p :: p in layout.groups <==>
      InGroup(Collected(info, OptMap(info)), Some(p.0)) != [] && p.1 == Sort(InGroup(Collected(info, OptMap(info)), Some(p.0)), EntryLe)
  {
    var lists := CollectLists(info);
    var top := Sort(Lists(lists, None), EntryLe);
    var groups := GroupLists(lists);
    var sorted := Sort(groups, GroupLe);
    OrdersTotal();
    SortSorted(Lists(lists, None), EntryLe);
    SortSorted(groups, GroupLe);
    SortKeepsDistinct(groups, GroupLe);
    forall p
      ensures p in sorted <==> p in groups
    {
      SortMembers(groups, GroupLe, p);
    }
    layout := Layout(top, sorted);
  }

  /** Every option the parser shows is a registered one, shown once in its
      own group's list with the names that still map to it, and every
      registered option is shown. */
  lemma ShownOnce(info: seq<Info>, g: Option<Group>, o: Opt)
    ensures var shown := Sort(InGroup(Collected(info, OptMap(info)), g), EntryLe);
      && Distinct(shown)
      && ((exists e :: e in shown && e.opt == o) <==> Registered(info, o) && o.group == g)
      && forall e :: e in shown ==> e.names == KeptNames(e.opt.names, e.opt, OptMap(info))
  {
    var m := OptMap(info);
    var c := Collected(info, m);
    var es := InGroup(c, g);
    var shown := Sort(es, EntryLe);
    CollectedOnce(info, m);
    assert Distinct(es) by {
      forall i, j | 0 <= i < j < |es|
        ensures es[i] != es[j]
      {
        InGroupDistinct(c, g, i, j);
      }
    }
    SortKeepsDistinct(es, EntryLe);
    CollectedOptions(info, m, o);
    forall e
      ensures e in shown <==> e in c && e.opt.group == g
    {
      SortMembers(es, EntryLe, e);
      InGroupMembers(c, g, e);
    }
    forall e | e in shown
      ensures e.names == KeptNames(e.opt.names, e.opt, m)
    {
      CollectedEntries(info, m, e);
    }
  }

  lemma {:induction false} InGroupDistinct(es: seq<Entry>, g: Option<Group>, i: nat, j: nat)
    requires forall a, b :: 0 <= a < b < |es| ==> es[a].opt != es[b].opt
    requires i < j < |InGroup(es, g)|
    ensures InGroup(es, g)[i] != InGroup(es, g)[j]
    decreases |es|
  {
    var n := |es| - 1;
    var front := es[..n];
    var e := es[n];
    if j < |InGroup(front, g)| {
      InGroupDistinct(front, g, i, j);
    } else {
      InGroupMembers(front, g, InGroup(front, g)[i]);
      var k :| 0 <= k < n && front[k] == InGroup(front, g)[i];
    }
  }

  // ---------------------------------------------------------------------
  // The parser's exit hook
  // ---------------------------------------------------------------------

  /** `str.strip()`. */
  function Strip(s: string): (r: string)
    ensures |r| <= |s|
    decreases |s|
  {
    if s == [] then s
    else if IsSpace(s[0]) then Strip(s[1..])
    else if IsSpace(s[|s| - 1]) then Strip(s[..|s| - 1])
    else s
  }

  /** What the parser's `exit` does: raise `InvocationError`, raise
      `SystemExit`, or return. */
  datatype Exit = Invocation(msg: string) | SystemExit(status: int) | Return

  /** `_exit_parser(status, msg)` for program name `prog`: a message loses
      its `prog:` prefix and is raised; otherwise a nonzero status exits. */
  function ExitParser(prog: string, status: int, msg: Option<string>): Exit
  {
    if msg.Some? && msg.value != "" then
      var tag := prog + ":";
      Invocation(Strip(if IsPrefix(tag, msg.value) then msg.value[|tag|..] else msg.value))
    else if status != 0 then SystemExit(status)
    else Return
  }

  /** A message always becomes an `InvocationError` without the program's
      prefix, whatever the status; without one only a nonzero status
      exits. */
  lemma ExitRules(prog: string, status: int, msg: Option<string>, text: string)
    ensures msg == Some(prog + ":" + text) ==> ExitParser(prog, status, msg) == Invocation(Strip(text))
    ensures (msg.None? || msg == Some("")) ==> (ExitParser(prog, status, msg) == Return <==> status == 0)
    ensures (msg.None? || msg == Some("")) && status != 0 ==> ExitParser(prog, status, msg) == SystemExit(status)
  {
    if msg == Some(prog + ":" + text) {
      var m := prog + ":" + text;
      assert m[..|prog + ":"|] == prog + ":";
      assert m[|prog + ":"|..] == text;
    }
  }
}
