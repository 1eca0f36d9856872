/** Call tracing for unit tests (`peak/util/unittrace.py`): a profiler hook
    records the calls made while a function runs, down to a maximum call
    depth, and the recorded calls can be searched by function and by the
    values of their arguments. Frames, code objects and argument values are
    opaque: a frame is an identity with a code and its local variables. */
module UnitTrace {
  import opened Base

  /** `Call`: the code object run and the local variables at entry. */
  datatype Call<C, V> = Call(code: C, args: map<string, V>)

  /** The record of `call` holds every keyword argument in `kw` with an
      equal value. */
  predicate HasArgs<C, V(==)>(call: Call<C, V>, kw: map<string, V>)
  {
    forall k :: k in kw ==> k in call.args && call.args[k] == kw[k]
  }

  /** `Call.hadArgs(**kw)`: checks the keyword arguments one by one and
      fails at the first that is missing or different. */
  method HadArgs<C, V(==)>(call: Call<C, V>, kw: map<string, V>) returns (b: bool)
    ensures b <==> HasArgs(call, kw)
  {
    var todo := kw.Keys;
    while todo != {}
      invariant todo <= kw.Keys
      invariant forall k :: k in kw && k !in todo ==> k in call.args && call.args[k] == kw[k]
      decreases todo
    {
      var k :| k in todo;
      if k !in call.args || call.args[k] != kw[k] {
        return false;
      }
      todo := todo - {k};
    }
    return true;
  }

  /** What a recorded call is compared against: a function's code, and for
      a bound method the objects it is bound to, paired with the names of
      the leading parameters they fill (`zip(co_varnames, args)`). */
  datatype Target<C, V> = Target(code: C, bound: seq<(string, V)>)

  /** `call == func`: the same code, and each bound object equal to the
      argument it fills. A name missing from the call's variables does not
      match. */
  predicate Matches<C(==), V(==)>(call: Call<C, V>, f: Target<C, V>)
  {
    call.code == f.code &&
    forall i :: 0 <= i < |f.bound| ==> f.bound[i].0 in call.args && call.args[f.bound[i].0] == f.bound[i].1
  }

  /** `iterCalls(log, func, **kw)`: the recorded calls of `func` with the
      given keyword arguments, in log order. */
  function Calls<C(==), V(==)>(log: seq<Call<C, V>>, f: Target<C, V>, kw: map<string, V>): (r: seq<Call<C, V>>)
    ensures |r| <= |log|
    ensures forall j :: 0 <= j < |r| ==> r[j] in log && Matches(r[j], f) && HasArgs(r[j], kw)
    ensures forall i :: 0 <= i < |log| && Matches(log[i], f) && HasArgs(log[i], kw) ==> log[i] in r
  {
    if log == [] then []
    else
      var rest := Calls(log[..|log| - 1], f, kw);
      var c := log[|log| - 1];
      if Matches(c, f) && HasArgs(c, kw) then rest + [c] else rest
  }

  /** A call of the log is selected by a search. */
  predicate Selected<C(==), V(==)>(log: seq<Call<C, V>>, f: Target<C, V>, kw: map<string, V>, i: int)
  {
    0 <= i < |log| && Matches(log[i], f) && HasArgs(log[i], kw)
  }

  /** The first call selected is the first entry of the search. */
  lemma {:induction false} CallsFirst<C, V>(log: seq<Call<C, V>>, f: Target<C, V>, kw: map<string, V>, i: int)
    requires Selected(log, f, kw, i)
    requires forall j :: 0 <= j < i ==> !Selected(log, f, kw, j)
    ensures Calls(log, f, kw) != [] && Calls(log, f, kw)[0] == log[i]
  {
    var n := |log| - 1;
    forall j | 0 <= j < i && j < n
      ensures !Selected(log[..n], f, kw, j)
    {
      assert log[..n][j] == log[j] && !Selected(log, f, kw, j);
    }
    if i < n {
      assert log[..n][i] == log[i];
      CallsFirst(log[..n], f, kw, i);
    } else {
      CallsNone(log[..n], f, kw);
    }
  }

  /** A search selecting nothing gives nothing. */
  lemma {:induction false} CallsNone<C, V>(log: seq<Call<C, V>>, f: Target<C, V>, kw: map<string, V>)
    requires forall j :: 0 <= j < |log| ==> !Selected(log, f, kw, j)
    ensures Calls(log, f, kw) == []
  {
    if log != [] {
      var n := |log| - 1;
      forall j | 0 <= j < n
        ensures !Selected(log[..n], f, kw, j)
      {
        assert log[..n][j] == log[j] && !Selected(log, f, kw, j);
      }
      assert !Selected(log, f, kw, n);
      CallsNone(log[..n], f, kw);
    }
  }

  /** Calls whose code is not the target's are never selected, whatever the
      keyword arguments. */
  lemma OtherCodeIgnored<C, V>(log: seq<Call<C, V>>, f: Target<C, V>, kw: map<string, V>, c: Call<C, V>)
    requires c.code != f.code
    ensures c !in Calls(log, f, kw)
  {
  }

  /** The frame of a traced event: its identity, code and local variables. */
  datatype Frame<C, V> = Frame(id: nat, code: C, locals: map<string, V>)

  /** The profiler events; the `c_...` events of built-in functions and
      any other event only move `curframe`. */
  datatype Event = CallEvent | ReturnEvent | ExceptionEvent | OtherEvent(name: string)

  /** The recorder's state: the log, the current depth and the identity of
      the last frame seen. */
  datatype TraceState<C, V> = TraceState(log: seq<Call<C, V>>, depth: int, curframe: Option<nat>)

  /** `History.trace_event(frame, event, arg)`. */
  function Step<C, V>(maxDepth: int, s: TraceState<C, V>, frame: Frame<C, V>, event: Event): (r: TraceState<C, V>)
    ensures r.curframe == Some(frame.id)
    ensures event == CallEvent ==> r.depth == s.depth + 1
    ensures event == CallEvent ==> (r.log == s.log + [Call(frame.code, frame.locals)] <==> s.depth < maxDepth)
    ensures event == CallEvent && s.depth >= maxDepth ==> r.log == s.log
    ensures event != CallEvent ==> r.log == s.log
    ensures event == ReturnEvent ==> r.depth == s.depth - 1
    ensures event == ExceptionEvent ==> (r.depth == s.depth - 1 <==> s.curframe != Some(frame.id))
    ensures event == ExceptionEvent && s.curframe == Some(frame.id) ==> r.depth == s.depth
    ensures event.OtherEvent? ==> r.depth == s.depth
  {
    var s1 := match event {
      case CallEvent =>
        var d := s.depth + 1;
        s.(depth := d, log := if d <= maxDepth then s.log + [Call(frame.code, frame.locals)] else s.log)
      case ReturnEvent => s.(depth := s.depth - 1)
      case ExceptionEvent => if s.curframe != Some(frame.id) then s.(depth := s.depth - 1) else s
      case OtherEvent(_) => s
    };
    s1.(curframe := Some(frame.id))
  }

  /** A run of events. */
  function Run<C, V>(maxDepth: int, s: TraceState<C, V>, evs: seq<(Frame<C, V>, Event)>): (r: TraceState<C, V>)
    ensures IsPrefix(s.log, r.log)
    ensures |r.log| <= |s.log| + |evs|
    ensures evs == [] ==> r == s
    ensures evs != [] ==> r.curframe == Some(evs[|evs| - 1].0.id)
  {
    if evs == [] then s
    else
      var last := evs[|evs| - 1];
      Step(maxDepth, Run(maxDepth, s, evs[..|evs| - 1]), last.0, last.1)
  }

  /** Calls minus returns, for a run without exception events. */
  function Net<C, V>(evs: seq<(Frame<C, V>, Event)>): int
  {
    if evs == [] then 0
    else
      var e := evs[|evs| - 1].1;
      Net(evs[..|evs| - 1]) + (if e == CallEvent then 1 else if e == ReturnEvent then -1 else 0)
  }

  /** Without exceptions the depth is the starting depth plus the calls
      entered minus the calls returned, and the log only grows. */
  lemma {:induction false} RunDepth<C, V>(maxDepth: int, s: TraceState<C, V>, evs: seq<(Frame<C, V>, Event)>)
    requires forall i :: 0 <= i < |evs| ==> evs[i].1 != ExceptionEvent
    ensures Run(maxDepth, s, evs).depth == s.depth + Net(evs)
    ensures IsPrefix(s.log, Run(maxDepth, s, evs).log)
  {
    if evs != [] {
      RunDepth(maxDepth, s, evs[..|evs| - 1]);
    }
  }

  /** Below the maximum depth nothing more is logged: while every call stays
      deeper than `maxDepth`, the log does not change. */
  lemma {:induction false} DeepCallsUnlogged<C, V>(maxDepth: int, s: TraceState<C, V>, evs: seq<(Frame<C, V>, Event)>)
    requires s.depth >= maxDepth
    requires forall i :: 0 <= i < |evs| ==> evs[i].1 != ExceptionEvent
    requires forall i :: 0 <= i <= |evs| ==> Net(evs[..i]) >= 0
    ensures Run(maxDepth, s, evs).log == s.log
  {
    if evs != [] {
      var n := |evs| - 1;
      assert forall i :: 0 <= i <= n ==> evs[..n][..i] == evs[..i];
      DeepCallsUnlogged(maxDepth, s, evs[..n]);
      RunDepth(maxDepth, s, evs[..n]);
      assert evs[..|evs|] == evs;
    }
  }

  /** An exception passing through a frame is counted once, however many
      exception events that frame reports in a row. */
  lemma ExceptionCountedOnce<C, V>(maxDepth: int, s: TraceState<C, V>, f: Frame<C, V>)
    requires s.curframe != Some(f.id)
    ensures Step(maxDepth, s, f, ExceptionEvent).depth == s.depth - 1
    ensures Step(maxDepth, Step(maxDepth, s, f, ExceptionEvent), f, ExceptionEvent).depth == s.depth - 1
  {
  }

  /** `History`: the recorder, with the log and the depth counters as
      fields. */
  class History<C(==), V(==)> {
    var log: seq<Call<C, V>>
    const maxDepth: int
    var depth: int
    var curframe: Option<nat>

    constructor (maxDepth: int)
      ensures log == [] && this.maxDepth == maxDepth && depth == 0 && curframe == None
    {
      log := [];
      this.maxDepth := maxDepth;
      depth := 0;
      curframe := None;
    }

    function State(): TraceState<C, V>
      reads this
    {
      TraceState(log, depth, curframe)
    }

    method TraceEvent(frame: Frame<C, V>, event: Event)
      modifies this`log, this`depth, this`curframe
      ensures State() == Step(maxDepth, old(State()), frame, event)
    {
      if event == CallEvent {
        depth := depth + 1;
        if depth <= maxDepth {
          log := log + [Call(frame.code, frame.locals)];
        }
      } else if event == ReturnEvent {
        depth := depth - 1;
      } else if event == ExceptionEvent {
        if curframe != Some(frame.id) {
          depth := depth - 1;
        }
      }
      curframe := Some(frame.id);
    }

    /** `called(func, **kw)`: the first recorded call selected, or None. */
    method Called(f: Target<C, V>, kw: map<string, V>) returns (r: Option<Call<C, V>>)
      ensures r == None <==> Calls(log, f, kw) == []
      ensures r != None ==> r == Some(Calls(log, f, kw)[0])
    {
      var i := 0;
      while i < |log|
        invariant 0 <= i <= |log|
        invariant forall j :: 0 <= j < i ==> !Selected(log, f, kw, j)
      {
        var ok := HadArgs(log[i], kw);
        if Matches(log[i], f) && ok {
          CallsFirst(log, f, kw, i);
          return Some(log[i]);
        }
        i := i + 1;
      }
      CallsNone(log, f, kw);
      return None;
    }

    /** `calledOnce(func, **kw)`: the selected call when there is exactly
        one, otherwise None. */
    method CalledOnce(f: Target<C, V>, kw: map<string, V>) returns (r: Option<Call<C, V>>)
      ensures r != None <==> |Calls(log, f, kw)| == 1
      ensures r != None ==> r == Some(Calls(log, f, kw)[0])
    {
      var items := CallsTo(log, f, kw);
      if |items| == 1 {
        return Some(items[0]);
      }
      return None;
    }
  }

  /** `list(callsTo(func, **kw))`: the log filtered in order. */
  method CallsTo<C(==), V(==)>(log: seq<Call<C, V>>, f: Target<C, V>, kw: map<string, V>) returns (items: seq<Call<C, V>>)
    ensures items == Calls(log, f, kw)
  {
    items := [];
    var i := 0;
    while i < |log|
      invariant 0 <= i <= |log|
      invariant items == Calls(log[..i], f, kw)
    {
      var ok := HadArgs(log[i], kw);
      assert log[..i + 1][..i] == log[..i];
      if Matches(log[i], f) && ok {
        items := items + [log[i]];
      }
      i := i + 1;
    }
    assert log[..i] == log;
  }
}
