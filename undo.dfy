/** peak.storage.undo: deltas that can be finished, undone and redone, a
    History that merges deltas by key, and an UndoManager with undo and
    redo stacks.

    A delta's flags follow one state machine (`Step`); a History runs that
    machine over each of its deltas in order and stops at the first error
    (`RunAll`), and then updates its own flags (`HistFinish`, `HistUndo`,
    `HistRedo`).  Leaf deltas are objects, so the same delta may sit in a
    history twice or in two histories: the specification therefore works on
    a snapshot map from delta objects to their flags. */
module Undo {
  import opened Base

  type Key = string

  /** The UndoError messages of the source, plus the IndexError raised by
      popping an empty undo stack. */
  datatype UndoError =
    | AlreadyCheckpointed
    | NoLongerActive
    | CantUndo
    | RepeatedUndo
    | RepeatedRedo
    | NotCheckpointed
    | NothingToRedo
    | EmptyUndoStack

  datatype Flags = Flags(active: bool, done: bool, undoable: bool)

  /** A delta's flags after an operation, and the error it raised (if any).
      The flags changed before an error was raised stay changed. */
  datatype Outcome = Outcome(flags: Flags, err: Option<UndoError>)

  datatype Op = FinishOp | UndoOp | RedoOp

  /** AbstractDelta.finish / undo / redo on one delta whose hooks succeed.
      `undo` finishes an active delta first. */
  function Step(op: Op, f: Flags): Outcome
  {
    match op
    case FinishOp =>
      if f.active then Outcome(f.(active := false), None) else Outcome(f, Some(AlreadyCheckpointed))
    case UndoOp =>
      var g := f.(active := false);
      if !g.done then Outcome(g, Some(RepeatedUndo))
      else if !g.undoable then Outcome(g, Some(CantUndo))
      else Outcome(g.(done := false), None)
    case RedoOp =>
      if f.done then Outcome(f, Some(RepeatedRedo)) else Outcome(f.(done := true), None)
  }

  /** A new delta is active and done; finishing clears `active`, and a
      second finish raises. */
  lemma FinishOnce(f: Flags)
    requires f.active
    ensures Step(FinishOp, f) == Outcome(f.(active := false), None)
    ensures Step(FinishOp, Step(FinishOp, f).flags).err == Some(AlreadyCheckpointed)
  {
  }

  /** Undo of a done, undoable delta finishes it and clears `done`; a second
      undo raises `RepeatedUndo`, and redo restores `done`. */
  lemma UndoThenRedo(f: Flags)
    requires f.done && f.undoable
    ensures Step(UndoOp, f) == Outcome(f.(active := false, done := false), None)
    ensures Step(UndoOp, Step(UndoOp, f).flags).err == Some(RepeatedUndo)
    ensures Step(RedoOp, Step(UndoOp, f).flags) == Outcome(f.(active := false), None)
  {
  }

  /** Undo of a delta that is not undoable raises and leaves `done` set. */
  lemma UndoNotUndoable(f: Flags)
    requires f.done && !f.undoable
    ensures Step(UndoOp, f).err == Some(CantUndo) && Step(UndoOp, f).flags.done
  {
  }

  /** Redo succeeds exactly when `done` is clear, and then sets it. */
  lemma RedoOnlyAfterUndo(f: Flags)
    ensures Step(RedoOp, f).err.None? <==> !f.done
    ensures Step(RedoOp, f).flags.done
  {
  }

  /** After finish, undo or redo a delta is no longer active, so merging
      into it raises. */
  lemma InactiveAfterAnyStep(op: Op, f: Flags)
    requires op != RedoOp || !f.active
    ensures !Step(op, f).flags.active
  {
  }

  /** The result of running one operation over a sequence of deltas. */
  datatype Run = Run(snap: map<Delta, Flags>, err: Option<UndoError>)

  /** History._finish / _undo / _redo: the operation applied to each delta
      in turn, stopping at the first one that raises. */
  function RunAll(op: Op, snap: map<Delta, Flags>, ds: seq<Delta>): (r: Run)
    requires forall d :: d in ds ==> d in snap
    ensures r.snap.Keys == snap.Keys
  {
    if ds == [] then Run(snap, None)
    else
      var r := RunAll(op, snap, ds[..|ds| - 1]);
      var d := ds[|ds| - 1];
      if r.err.Some? then r
      else
        var o := Step(op, r.snap[d]);
        Run(r.snap[d := o.flags], o.err)
  }

  /** One more delta, after a prefix that did not raise. */
  lemma RunAllSnoc(op: Op, snap: map<Delta, Flags>, ds: seq<Delta>, i: nat)
    requires forall d :: d in ds ==> d in snap
    requires i < |ds| && RunAll(op, snap, ds[..i]).err.None?
    ensures ds[i] in RunAll(op, snap, ds[..i]).snap
    ensures RunAll(op, snap, ds[..i + 1]) ==
      var r := RunAll(op, snap, ds[..i]);
      var o := Step(op, r.snap[ds[i]]);
      Run(r.snap[ds[i] := o.flags], o.err)
  {
    assert ds[..i + 1][..i] == ds[..i];
  }

  /** Once a prefix raises, the rest of the deltas are not touched. */
  lemma {:induction false} RunAllStops(op: Op, snap: map<Delta, Flags>, ds: seq<Delta>, k: nat)
    requires forall d :: d in ds ==> d in snap
    requires k <= |ds| && RunAll(op, snap, ds[..k]).err.Some?
    ensures RunAll(op, snap, ds) == RunAll(op, snap, ds[..k])
    decreases |ds|
  {
    if k < |ds| {
      assert ds[..|ds| - 1][..k] == ds[..k];
      RunAllStops(op, snap, ds[..|ds| - 1], k);
    } else {
      assert ds[..k] == ds;
    }
  }

  /** Finishing every delta succeeds exactly when no delta occurs twice and
      all are active; afterwards none is active and nothing else changed. */
  lemma {:induction false} FinishAllDeltas(snap: map<Delta, Flags>, ds: seq<Delta>)
    requires forall d :: d in ds ==> d in snap
    ensures RunAll(FinishOp, snap, ds).err.None? <==> Distinct(ds) && forall d :: d in ds ==> snap[d].active
    ensures RunAll(FinishOp, snap, ds).err.None? ==>
      forall d :: d in snap ==>
        RunAll(FinishOp, snap, ds).snap[d] == if d in ds then snap[d].(active := false) else snap[d]
  {
    if ds != [] {
      var front, d := ds[..|ds| - 1], ds[|ds| - 1];
      assert ds == front + [d];
      FinishAllDeltas(snap, front);
      assert Distinct(ds) ==> Distinct(front);
      assert Distinct(ds) <==> Distinct(front) && d !in front by {
        if d in front {
          var j :| 0 <= j < |front| && front[j] == d;
          assert ds[j] == ds[|ds| - 1];
        }
      }
    }
  }

  /** The last element of a sequence of distinct elements is not among
      the others. */
  lemma DistinctSplit<T>(ds: seq<T>)
    requires |ds| > 0
    ensures Distinct(ds) <==> Distinct(ds[..|ds| - 1]) && ds[|ds| - 1] !in ds[..|ds| - 1]
  {
    if ds[|ds| - 1] in ds[..|ds| - 1] {
      var j :| 0 <= j < |ds| - 1 && ds[j] == ds[|ds| - 1];
      assert ds[j] == ds[|ds| - 1];
    }
  }

  /** Undoing distinct, finished, done and undoable deltas succeeds and only
      clears their `done` flags. */
  lemma {:induction false} UndoAllDeltas(snap: map<Delta, Flags>, ds: seq<Delta>)
    requires forall d :: d in ds ==> d in snap
    requires Distinct(ds)
    requires forall d :: d in ds ==> !snap[d].active && snap[d].done && snap[d].undoable
    ensures RunAll(UndoOp, snap, ds).err.None?
    ensures forall d :: d in snap ==>
      RunAll(UndoOp, snap, ds).snap[d] == if d in ds then snap[d].(done := false) else snap[d]
  {
    if ds != [] {
      var front, d := ds[..|ds| - 1], ds[|ds| - 1];
      assert ds == front + [d];
      DistinctSplit(ds);
      UndoAllDeltas(snap, front);
    }
  }

  /** Redoing distinct deltas that are not done succeeds and only sets
      their `done` flags. */
  lemma {:induction false} RedoAllDeltas(snap: map<Delta, Flags>, ds: seq<Delta>)
    requires forall d :: d in ds ==> d in snap
    requires Distinct(ds)
    requires forall d :: d in ds ==> !snap[d].done
    ensures RunAll(RedoOp, snap, ds).err.None?
    ensures forall d :: d in snap ==>
      RunAll(RedoOp, snap, ds).snap[d] == if d in ds then snap[d].(done := true) else snap[d]
  {
    if ds != [] {
      var front, d := ds[..|ds| - 1], ds[|ds| - 1];
      assert ds == front + [d];
      DistinctSplit(ds);
      RedoAllDeltas(snap, front);
    }
  }

  /** Undo of every delta followed by redo of every delta is the identity
      on distinct, finished, done and undoable deltas. */
  lemma UndoAllThenRedoAll(snap: map<Delta, Flags>, ds: seq<Delta>)
    requires forall d :: d in ds ==> d in snap
    requires Distinct(ds)
    requires forall d :: d in ds ==> !snap[d].active && snap[d].done && snap[d].undoable
    ensures RunAll(UndoOp, snap, ds).err.None?
    ensures RunAll(RedoOp, RunAll(UndoOp, snap, ds).snap, ds) == Run(snap, None)
  {
    UndoAllDeltas(snap, ds);
    var u := RunAll(UndoOp, snap, ds).snap;
    RedoAllDeltas(u, ds);
    var back := RunAll(RedoOp, u, ds).snap;
    assert back == snap by {
      forall d | d in snap ensures back[d] == snap[d] {
      }
    }
  }

  /** A History's own step: its flags, its deltas' flags, and the error. */
  datatype HistRun = HistRun(flags: Flags, snap: map<Delta, Flags>, err: Option<UndoError>)

  function HistFinish(f: Flags, snap: map<Delta, Flags>, data: seq<Delta>): (r: HistRun)
    requires forall d :: d in data ==> d in snap
    ensures r.snap.Keys == snap.Keys
  {
    if !f.active then HistRun(f, snap, Some(AlreadyCheckpointed))
    else
      var r := RunAll(FinishOp, snap, data);
      if r.err.Some? then HistRun(f, r.snap, r.err) else HistRun(f.(active := false), r.snap, None)
  }

  /** The part of History.undo after an active history has been finished. */
  function HistUndoFinished(f: Flags, snap: map<Delta, Flags>, data: seq<Delta>): (r: HistRun)
    requires forall d :: d in data ==> d in snap
    ensures r.snap.Keys == snap.Keys
  {
    if !f.done then HistRun(f, snap, Some(RepeatedUndo))
    else if !f.undoable then HistRun(f, snap, Some(CantUndo))
    else
      var r := RunAll(UndoOp, snap, data);
      if r.err.Some? then HistRun(f, r.snap, r.err)
      else HistRun(f.(done := false), r.snap, None)
  }

  function HistUndo(f: Flags, snap: map<Delta, Flags>, data: seq<Delta>): (r: HistRun)
    requires forall d :: d in data ==> d in snap
    ensures r.snap.Keys == snap.Keys
  {
    var fin := if f.active then HistFinish(f, snap, data) else HistRun(f, snap, None);
    if fin.err.Some? then fin else HistUndoFinished(fin.flags, fin.snap, data)
  }

  function HistRedo(f: Flags, snap: map<Delta, Flags>, data: seq<Delta>): (r: HistRun)
    requires forall d :: d in data ==> d in snap
    ensures r.snap.Keys == snap.Keys
  {
    if f.done then HistRun(f, snap, Some(RepeatedRedo))
    else
      var r := RunAll(RedoOp, snap, data);
      if r.err.Some? then HistRun(f, r.snap, r.err) else HistRun(f.(done := true), r.snap, None)
  }

  /** Undoing an active undoable history of distinct, fresh deltas finishes
      and undoes them all; redoing it then makes every delta done again. */
  lemma HistoryUndoRedo(f: Flags, snap: map<Delta, Flags>, data: seq<Delta>)
    requires forall d :: d in data ==> d in snap
    requires f == Flags(true, true, true) && Distinct(data)
    requires forall d :: d in data ==> snap[d] == Flags(true, true, true)
    ensures HistUndo(f, snap, data).err.None? && HistUndo(f, snap, data).flags == Flags(false, false, true)
    ensures forall d :: d in data ==> HistUndo(f, snap, data).snap[d] == Flags(false, false, true)
    ensures var u := HistUndo(f, snap, data);
      HistRedo(u.flags, u.snap, data).err.None?
      && HistRedo(u.flags, u.snap, data).flags == Flags(false, true, true)
      && forall d :: d in data ==> HistRedo(u.flags, u.snap, data).snap[d] == Flags(false, true, true)
  {
    FinishAllDeltas(snap, data);
    var fin := RunAll(FinishOp, snap, data).snap;
    UndoAllDeltas(fin, data);
    var u := RunAll(UndoOp, fin, data).snap;
    RedoAllDeltas(u, data);
  }

  /** Where History._merge puts a (non-history) delta: into the delta that
      already holds its key, when the key is not None, or else at the end. */
  function Target(byKey: map<Option<Key>, Delta>, d: Delta): Option<Delta>
  {
    if d.key.Some? && d.key in byKey then Some(byKey[d.key]) else None
  }

  /** The target of `d`, as a set (for frames). */
  function Targets(byKey: map<Option<Key>, Delta>, d: Delta): (ts: set<Delta>)
    ensures ts == if Target(byKey, d).Some? then {Target(byKey, d).value} else {}
  {
    if d.key.Some? && d.key in byKey then {byKey[d.key]} else {}
  }

  /** The deltas and key index after merging `ds` one by one (ignoring the
      errors a target could raise). */
  function AbsorbAll(data: seq<Delta>, byKey: map<Option<Key>, Delta>, ds: seq<Delta>)
    : (r: (seq<Delta>, map<Option<Key>, Delta>))
  {
    if ds == [] then (data, byKey)
    else
      var r := AbsorbAll(data, byKey, ds[..|ds| - 1]);
      var d := ds[|ds| - 1];
      if Target(r.1, d).Some? then r else (r.0 + [d], r.1[d.key := d])
  }

  /** Merging one more delta. */
  lemma AbsorbAllSnoc(data: seq<Delta>, byKey: map<Option<Key>, Delta>, ds: seq<Delta>, d: Delta)
    ensures AbsorbAll(data, byKey, ds + [d]) ==
      var r := AbsorbAll(data, byKey, ds);
      if Target(r.1, d).Some? then r else (r.0 + [d], r.1[d.key := d])
  {
    assert (ds + [d])[..|ds|] == ds;
  }

  /** Merging adds only the merged deltas. */
  lemma {:induction false} AbsorbAllFrom(data: seq<Delta>, byKey: map<Option<Key>, Delta>, ds: seq<Delta>)
    ensures forall x :: x in AbsorbAll(data, byKey, ds).0 ==> x in data || x in ds
  {
    if ds != [] {
      AbsorbAllFrom(data, byKey, ds[..|ds| - 1]);
    }
  }

  /** No delta of `ds` refuses undo. */
  ghost predicate AllUndoable(ds: seq<Delta>)
    reads ds`undoable
  {
    forall i :: 0 <= i < |ds| ==> ds[i].undoable
  }

  /** The key index of a History: each key maps to a delta of the history
      with that key, and a non-None key maps to the only delta holding it. */
  ghost predicate Indexed(data: seq<Delta>, byKey: map<Option<Key>, Delta>)
  {
    && (forall k :: k in byKey ==> byKey[k] in data && byKey[k].key == k)
    && (forall i :: 0 <= i < |data| ==> data[i].key in byKey)
    && (forall i :: 0 <= i < |data| && data[i].key.Some? ==> byKey[data[i].key] == data[i])
    && (forall i, j :: 0 <= i < j < |data| && data[i].key.Some? ==> data[i].key != data[j].key)
  }

  /** Merging keeps the old entries in place and only appends, keeps the
      index consistent, and never lets two entries share a non-None key. */
  lemma {:induction false} AbsorbAllKeepsIndex(data: seq<Delta>, byKey: map<Option<Key>, Delta>, ds: seq<Delta>)
    requires Indexed(data, byKey)
    ensures Indexed(AbsorbAll(data, byKey, ds).0, AbsorbAll(data, byKey, ds).1)
    ensures IsPrefix(data, AbsorbAll(data, byKey, ds).0)
  {
    if ds != [] {
      AbsorbAllKeepsIndex(data, byKey, ds[..|ds| - 1]);
      var r := AbsorbAll(data, byKey, ds[..|ds| - 1]);
      var d := ds[|ds| - 1];
      if Target(r.1, d).None? {
        var n := r.0 + [d];
        assert Indexed(n, r.1[d.key := d]) by {
          forall i | 0 <= i < |n| && n[i].key.Some? ensures r.1[d.key := d][n[i].key] == n[i] {
            if i < |r.0| {
              assert n[i] == r.0[i];
            }
          }
          forall i, j | 0 <= i < j < |n| && n[i].key.Some? ensures n[i].key != n[j].key {
            if j == |n| - 1 {
              assert n[i] == r.0[i] && r.0[i].key in r.1;
            } else {
              assert n[i] == r.0[i] && n[j] == r.0[j];
            }
          }
        }
      }
    }
  }

  /** The merge test of the module's tests: with keys a, b, a, None, the
      third delta goes into the first and the fourth is appended. */
  lemma MergeHistoryExample(d1: Delta, d2: Delta, d3: Delta, d4: Delta)
    requires d1.key == Some("a") && d2.key == Some("b") && d3.key == Some("a") && d4.key == None
    ensures var h1 := AbsorbAll([], map[], [d1, d2]);
      var h2 := AbsorbAll([], map[], [d3, d4]);
      AbsorbAll(h1.0, h1.1, h2.0).0 == [d1, d2, d4]
      && Target(h1.1, d3) == Some(d1)
  {
    assert "a"[0] != "b"[0];
    var e: map<Option<Key>, Delta> := map[];
    // the first history: d1 and d2 are both appended
    assert [] + [d1] == [d1] && [d1] + [d2] == [d1, d2];
    AbsorbAllSnoc([], e, [], d1);
    AbsorbAllSnoc([], e, [d1], d2);
    var h1 := AbsorbAll([], e, [d1, d2]);
    assert h1.0 == [d1, d2] && h1.1 == e[d1.key := d1][d2.key := d2];
    // the second history: d3 and d4 are both appended
    assert [] + [d3] == [d3] && [d3] + [d4] == [d3, d4];
    AbsorbAllSnoc([], e, [], d3);
    AbsorbAllSnoc([], e, [d3], d4);
    var h2 := AbsorbAll([], e, [d3, d4]);
    assert h2.0 == [d3, d4];
    // merging: d3 goes into d1, d4 is appended
    assert Target(h1.1, d3) == Some(d1);
    AbsorbAllSnoc(h1.0, h1.1, [], d3);
    AbsorbAllSnoc(h1.0, h1.1, [d3], d4);
  }

  /** A delta of the application: the AbstractDelta flags, its key, and
      the deltas its `_merge` hook has absorbed. */
  class Delta {
    const key: Option<Key>
    var undoable: bool
    var active: bool
    var done: bool
    var merges: seq<Delta>

    constructor (key: Option<Key>)
      ensures this.key == key && State() == Flags(true, true, true) && merges == []
    {
      this.key := key;
      undoable, active, done := true, true, true;
      merges := [];
    }

    function State(): Flags
      reads this`active, this`done, this`undoable
    {
      Flags(active, done, undoable)
    }

    method Finish() returns (err: Option<UndoError>)
      modifies this`active
      ensures Outcome(State(), err) == Step(FinishOp, old(State()))
    {
      if active {
        active := false;
        err := None;
      } else {
        err := Some(AlreadyCheckpointed);
      }
    }

    method Undo() returns (err: Option<UndoError>)
      modifies this`active, this`done
      ensures Outcome(State(), err) == Step(UndoOp, old(State()))
    {
      if active {
        err := Finish();
      }
      if done {
        if undoable {
          done := false;
          err := None;
        } else {
          err := Some(CantUndo);
        }
      } else {
        err := Some(RepeatedUndo);
      }
    }

    method Redo() returns (err: Option<UndoError>)
      modifies this`done
      ensures Outcome(State(), err) == Step(RedoOp, old(State()))
    {
      if done {
        err := Some(RepeatedRedo);
      } else {
        done := true;
        err := None;
      }
    }

    /** Finish, Undo or Redo, as `op` says. */
    method Apply(op: Op) returns (err: Option<UndoError>)
      modifies this`active, this`done
      ensures Outcome(State(), err) == Step(op, old(State()))
    {
      match op {
        case FinishOp => err := Finish();
        case UndoOp => err := Undo();
        case RedoOp => err := Redo();
      }
    }

    /** `merge(delta)`: only while active. */
    method Merge(d: Delta) returns (err: Option<UndoError>)
      modifies this`merges
      ensures old(active) ==> err.None? && merges == old(merges) + [d]
      ensures !old(active) ==> err == Some(NoLongerActive) && merges == old(merges)
    {
      if active {
        merges := merges + [d];
        err := None;
      } else {
        err := Some(NoLongerActive);
      }
    }
  }

  /** The flags of every delta in `ds`. */
  ghost function Snap(ds: seq<Delta>): (m: map<Delta, Flags>)
    reads ds`active, ds`done, ds`undoable
    ensures forall i :: 0 <= i < |ds| ==> ds[i] in m
  {
    map d | d in ds :: d.State()
  }

  class History {
    var active: bool
    var done: bool
    var undoable: bool
    var data: seq<Delta>
    var byKey: map<Option<Key>, Delta>

    ghost predicate Valid()
      reads this`data, this`byKey
    {
      Indexed(data, byKey)
    }

    function State(): Flags
      reads this`active, this`done, this`undoable
    {
      Flags(active, done, undoable)
    }

    constructor ()
      ensures Valid() && State() == Flags(true, true, true) && data == [] && byKey == map[]
    {
      active, done, undoable := true, true, true;
      data, byKey := [], map[];
    }

    /** `key in history`: some merged delta has that key. */
    function Contains(key: Option<Key>): (b: bool)
      reads this
      requires Valid()
      ensures b <==> exists i :: 0 <= i < |data| && data[i].key == key
    {
      if key in byKey then
        assert byKey[key] in data;
        true
      else
        false
    }

    /** `len(history)`. */
    function Len(): (n: nat)
      reads this
      ensures n == |data| && (n == 0 <==> data == [])
    {
      |data|
    }

    /** The error `merge(d)` raises for a non-history delta `d`, if any. */
    ghost function MergeError(d: Delta): Option<UndoError>
      reads this, data
      requires Valid()
    {
      if !active then Some(NoLongerActive)
      else match Target(byKey, d)
        case None => None
        case Some(t) => if t.active then None else Some(NoLongerActive)
    }

    /** `_merge` for a non-history delta. */
    method Absorb(d: Delta) returns (err: Option<UndoError>)
      requires Valid()
      modifies this`data, this`byKey, this`undoable, Targets(byKey, d)`merges
      ensures Valid()
      ensures (data, byKey) == AbsorbAll(old(data), old(byKey), [d])
      ensures err.None? <==> Target(old(byKey), d).None? || old(Target(byKey, d).value.active)
      ensures err.Some? ==> err == Some(NoLongerActive)
      ensures undoable == (old(undoable) && (err.Some? || d.undoable))
      ensures Target(old(byKey), d).Some? && err.None? ==>
        Target(old(byKey), d).value.merges == old(Target(byKey, d).value.merges) + [d]
    {
      if d.key.Some? && d.key in byKey {
        err := byKey[d.key].Merge(d);
        if err.Some? {
          return;
        }
      } else {
        Append(d);
        err := None;
      }
      if !d.undoable {
        undoable := false;
      }
    }

    /** Appends a delta whose key is not yet indexed. */
    method Append(d: Delta)
      requires Valid() && Target(byKey, d).None?
      modifies this`data, this`byKey
      ensures Valid()
      ensures (data, byKey) == AbsorbAll(old(data), old(byKey), [d])
    {
      ghost var olddata, oldkeys := data, byKey;
      data := data + [d];
      byKey := byKey[d.key := d];
      assert [d][..0] == [];
      assert Indexed(data, byKey) by {
        AbsorbAllKeepsIndex(olddata, oldkeys, [d]);
      }
    }

    /** `merge(d)` for a non-history delta. */
    method Merge(d: Delta) returns (err: Option<UndoError>)
      requires Valid()
      modifies this`data, this`byKey, this`undoable, data`merges
      ensures Valid()
      ensures err == old(MergeError(d))
      ensures (data, byKey) == if old(active) then AbsorbAll(old(data), old(byKey), [d]) else (old(data), old(byKey))
      ensures undoable == (old(undoable) && (err.Some? || d.undoable))
    {
      if active {
        err := Absorb(d);
      } else {
        err := Some(NoLongerActive);
      }
    }

    /** `merge(h)` for another History: its deltas are merged one by one
        (flattened), stopping at the first that raises. `n` is the number
        merged. */
    method MergeHistory(h: History) returns (err: Option<UndoError>, ghost n: nat)
      requires Valid() && h != this
      modifies this`data, this`byKey, this`undoable, data`merges, h.data`merges
      ensures Valid()
      ensures n <= |h.data| && (old(active) ==> (err.None? <==> n == |h.data|))
      ensures !old(active) ==> err == Some(NoLongerActive) && n == 0
      ensures (data, byKey) == AbsorbAll(old(data), old(byKey), old(h.data)[..n])
      ensures err.Some? && old(active) ==>
        Target(byKey, h.data[n]).Some? && !Target(byKey, h.data[n]).value.active
      ensures undoable == (old(undoable) && AllUndoable(old(h.data)[..n]))
    {
      n := 0;
      if !active {
        return Some(NoLongerActive), 0;
      }
      var ds := h.data;
      ghost var d0, k0 := data, byKey;
      var i := 0;
      while i < |ds|
        invariant 0 <= i <= |ds| && ds == h.data && ds == old(h.data) && d0 == old(data)
        invariant Valid()
        invariant data == AbsorbAll(d0, k0, ds[..i]).0 && byKey == AbsorbAll(d0, k0, ds[..i]).1
        invariant undoable == (old(undoable) && AllUndoable(ds[..i]))
      {
        err := AbsorbAt(ds, i, d0, k0, old(undoable));
        if err.Some? {
          return err, i;
        }
        i := i + 1;
      }
      assert ds[..i] == ds;
      return None, i;
    }

    /** One turn of `MergeHistory`: merging `ds[i]` after `ds[..i]`. */
    method AbsorbAt(ds: seq<Delta>, i: nat, ghost d0: seq<Delta>, ghost k0: map<Option<Key>, Delta>, ghost u0: bool)
      returns (err: Option<UndoError>)
      requires i < |ds| && Valid()
      requires data == AbsorbAll(d0, k0, ds[..i]).0 && byKey == AbsorbAll(d0, k0, ds[..i]).1
      requires undoable == (u0 && AllUndoable(ds[..i]))
      modifies this`data, this`byKey, this`undoable, d0`merges, ds`merges
      ensures Valid()
      ensures err.None? ==>
        && data == AbsorbAll(d0, k0, ds[..i + 1]).0 && byKey == AbsorbAll(d0, k0, ds[..i + 1]).1
        && undoable == (u0 && AllUndoable(ds[..i + 1]))
      ensures err.Some? ==>
        && data == old(data) && byKey == old(byKey) && undoable == old(undoable)
        && Target(byKey, ds[i]).Some? && !Target(byKey, ds[i]).value.active
    {
      assert ds[..i + 1][..i] == ds[..i];
      assert AllUndoable(ds[..i + 1]) == (AllUndoable(ds[..i]) && ds[i].undoable);
      AbsorbAllFrom(d0, k0, ds[..i]);
      assert forall t :: t in Targets(byKey, ds[i]) ==> t in d0 || t in ds[..i];
      err := Absorb(ds[i]);
    }

    /** One turn of `RunLoop`: `op` on the `i`th delta. */
    method StepAt(op: Op, i: nat, ghost s0: map<Delta, Flags>) returns (e: Option<UndoError>)
      requires i < |data| && forall d :: d in data ==> d in s0
      requires RunAll(op, s0, data[..i]).err.None? && Snap(data) == RunAll(op, s0, data[..i]).snap
      modifies {data[i]}`active, {data[i]}`done
      ensures Run(Snap(data), e) == RunAll(op, s0, data[..i + 1])
    {
      var d := data[i];
      RunAllSnoc(op, s0, data, i);
      ghost var before := Snap(data);
      e := d.Apply(op);
      assert Snap(data) == before[d := d.State()] by {
        forall x | x in data ensures Snap(data)[x] == before[d := d.State()][x] {
        }
      }
    }

    /** Runs `op` over every delta of the history, stopping at the first
        that raises. */
    method RunLoop(op: Op) returns (err: Option<UndoError>)
      modifies data`active, data`done
      ensures Run(Snap(data), err) == RunAll(op, old(Snap(data)), data)
    {
      ghost var s0 := Snap(data);
      var i := 0;
      while i < |data|
        invariant 0 <= i <= |data|
        invariant RunAll(op, s0, data[..i]).err.None?
        invariant Snap(data) == RunAll(op, s0, data[..i]).snap
      {
        var e := StepAt(op, i, s0);
        if e.Some? {
          RunAllStops(op, s0, data, i + 1);
          return e;
        }
        i := i + 1;
      }
      assert data[..i] == data;
      return None;
    }

    /** What `finish()`, `undo()` and `redo()` would do in the current
        state. */
    ghost function FinishResult(): HistRun
      reads this`active, this`done, this`undoable, this`data, data`active, data`done, data`undoable
    {
      HistFinish(State(), Snap(data), data)
    }

    ghost function UndoResult(): HistRun
      reads this`active, this`done, this`undoable, this`data, data`active, data`done, data`undoable
    {
      HistUndo(State(), Snap(data), data)
    }

    ghost function RedoResult(): HistRun
      reads this`active, this`done, this`undoable, this`data, data`active, data`done, data`undoable
    {
      HistRedo(State(), Snap(data), data)
    }

    method Finish() returns (err: Option<UndoError>)
      modifies this`active, data`active, data`done
      ensures HistRun(State(), Snap(data), err) == old(FinishResult())
    {
      if !active {
        return Some(AlreadyCheckpointed);
      }
      ghost var f0 := State();
      err := RunLoop(FinishOp);
      ghost var s1 := Snap(data);
      if err.None? {
        active := false;
        assert Snap(data) == s1 && State() == f0.(active := false);
      }
    }

    method UndoFinished() returns (err: Option<UndoError>)
      modifies this`done, data`active, data`done
      ensures HistRun(State(), Snap(data), err) == HistUndoFinished(old(State()), old(Snap(data)), data)
    {
      if !done {
        return Some(RepeatedUndo);
      }
      if !undoable {
        return Some(CantUndo);
      }
      ghost var f0 := State();
      err := RunLoop(UndoOp);
      ghost var s1 := Snap(data);
      if err.None? {
        done := false;
        assert Snap(data) == s1 && State() == f0.(done := false);
      }
    }

    method Undo() returns (err: Option<UndoError>)
      modifies this`active, this`done, data`active, data`done
      ensures HistRun(State(), Snap(data), err) == old(UndoResult())
    {
      if active {
        err := Finish();
        if err.Some? {
          return;
        }
      }
      err := UndoFinished();
    }

    method Redo() returns (err: Option<UndoError>)
      modifies this`done, data`active, data`done
      ensures HistRun(State(), Snap(data), err) == old(RedoResult())
    {
      if done {
        return Some(RepeatedRedo);
      }
      ghost var f0 := State();
      err := RunLoop(RedoOp);
      ghost var s1 := Snap(data);
      if err.None? {
        done := true;
        assert Snap(data) == s1 && State() == f0.(done := true);
      }
    }
  }

  class UndoManager {
    var history: History
    var undos: seq<History>
    var redos: seq<History>
    ghost var Hs: set<History>
    ghost var Repr: set<object>

    /** Every history the manager has held is in `Hs`; those histories and
        their deltas are in `Repr`; the current history's key index is
        consistent. */
    ghost predicate Valid()
      reads this, Hs`data, Hs`byKey
    {
      && this in Repr
      && (forall h :: h in Hs ==> h in Repr && Holds(h))
      && history in Hs && history.Valid()
      && (forall i :: 0 <= i < |undos| ==> undos[i] in Hs)
      && (forall i :: 0 <= i < |redos| ==> redos[i] in Hs)
    }

    /** The deltas of `h` are in `Repr`. */
    ghost predicate Holds(h: History)
      reads this`Repr, h`data, h`byKey
    {
      forall x :: x in h.data ==> x in Repr
    }

    constructor ()
      ensures Valid() && fresh(Repr)
      ensures fresh(history) && history.data == [] && history.State() == Flags(true, true, true)
      ensures undos == [] && redos == []
    {
      history := new History();
      undos, redos := [], [];
      Hs, Repr := {history}, {this, history};
    }

    /** `record(delta)`: merges the delta into the current history and, on
        success, clears the redo stack. */
    method Record(d: Delta) returns (err: Option<UndoError>)
      requires Valid()
      modifies Repr
      ensures Valid() && Repr == old(Repr) + {d}
      ensures history == old(history) && undos == old(undos)
      ensures err == old(history.MergeError(d))
      ensures (history.data, history.byKey) ==
        if old(history.active) then AbsorbAll(old(history.data), old(history.byKey), [d])
        else (old(history.data), old(history.byKey))
      ensures err.None? ==> redos == [] && history.Contains(d.key)
      ensures err.Some? ==> redos == old(redos)
      ensures history.active == old(history.active) && history.done == old(history.done)
      ensures history.undoable == (old(history.undoable) && (err.Some? || d.undoable))
      ensures forall h :: h in old(Hs) && h != history ==> h.State() == old(h.State())
      ensures forall x: Delta :: x in old(Repr) ==> x.State() == old(x.State())
    {
      err := history.Merge(d);
      Repr := Repr + {d};
      if err.None? {
        redos := [];
        assert d.key in history.byKey;
      }
    }

    /** `has_delta_for(key)`. */
    function HasDeltaFor(key: Option<Key>): (b: bool)
      reads this, Repr
      requires Valid()
      ensures b <==> exists i :: 0 <= i < |history.data| && history.data[i].key == key
    {
      history.Contains(key)
    }

    /** `checkpoint()`: finishes the current history, pushes it if it is
        undoable (else empties the undo stack), starts a fresh history and
        clears the redo stack. */
    method Checkpoint() returns (err: Option<UndoError>)
      requires Valid()
      modifies Repr
      ensures Valid() && fresh(Repr - old(Repr))
      ensures HistRun(old(history).State(), Snap(old(history).data), err) == old(history.FinishResult())
      ensures forall h :: h in old(Hs) && h != old(history) ==> h.State() == old(h.State())
      ensures forall x: Delta :: x in old(Repr) && x !in old(history.data) ==> x.State() == old(x.State())
      ensures err.Some? ==> history == old(history) && undos == old(undos) && redos == old(redos)
      ensures err.None? ==>
        && fresh(history) && history.data == [] && history.State() == Flags(true, true, true)
        && redos == []
        && undos == if old(history.undoable) then old(undos) + [old(history)] else []
    {
      var h := history;
      err := FinishHeld(h);
      if err.Some? {
        return;
      }
      Rotate();
    }

    /** The stack moves of `checkpoint()` once the current history is
        finished: it is pushed if undoable (else the undo stack is
        emptied), the redo stack is cleared and a fresh history starts. */
    method Rotate()
      requires Valid()
      modifies this`undos, this`redos, this`history, this`Hs, this`Repr
      ensures Valid() && Repr == old(Repr) + {history}
      ensures fresh(history) && history.data == [] && history.State() == Flags(true, true, true)
      ensures redos == [] && undos == if old(history.undoable) then old(undos) + [old(history)] else []
      ensures unchanged(old(history)) && unchanged(old(history).data)
    {
      if history.undoable {
        undos := undos + [history];
      } else {
        undos := [];
      }
      redos := [];
      StartHistory();
    }

    /** Replaces the current history by a fresh, empty one. */
    method StartHistory()
      requires Valid()
      modifies this`history, this`Hs, this`Repr
      ensures Valid() && Repr == old(Repr) + {history}
      ensures fresh(history) && history.data == [] && history.State() == Flags(true, true, true)
    {
      history := new History();
      Hs, Repr := Hs + {history}, Repr + {history};
    }

    /** `revert()`: undoes the current history and starts a fresh one. */
    method Revert() returns (err: Option<UndoError>)
      requires Valid()
      modifies Repr
      ensures Valid() && fresh(Repr - old(Repr))
      ensures err == old(history.UndoResult()).err
      ensures HistRun(old(history).State(), Snap(old(history).data), err) == old(history.UndoResult())
      ensures forall h :: h in old(Hs) && h != old(history) ==> h.State() == old(h.State())
      ensures forall x: Delta :: x in old(Repr) && x !in old(history.data) ==> x.State() == old(x.State())
      ensures undos == old(undos) && redos == old(redos)
      ensures err.Some? ==> history == old(history)
      ensures err.None? ==> fresh(history) && history.data == []
    {
      err := UndoHeld(history);
      if err.Some? {
        return;
      }
      StartHistory();
    }

    /** `finish()` on a history the manager holds; only that history and
        its deltas change. */
    method FinishHeld(h: History) returns (err: Option<UndoError>)
      requires Valid() && h in Hs
      modifies h`active, h.data`active, h.data`done
      ensures Valid()
      ensures HistRun(h.State(), Snap(h.data), err) == old(h.FinishResult())
      ensures h.undoable == old(h.undoable)
      ensures forall g :: g in old(Hs) && g != h ==> g.State() == old(g.State())
      ensures forall x: Delta :: x in old(Repr) && x !in h.data ==> x.State() == old(x.State())
    {
      err := h.Finish();
    }

    /** `undo()` on a history the manager holds; only that history and its
        deltas change. */
    method UndoHeld(h: History) returns (err: Option<UndoError>)
      requires Valid() && h in Hs
      modifies h`active, h`done, h.data`active, h.data`done
      ensures Valid()
      ensures HistRun(h.State(), Snap(h.data), err) == old(h.UndoResult())
      ensures forall g :: g in old(Hs) && g != h ==> g.State() == old(g.State())
      ensures forall x: Delta :: x in old(Repr) && x !in h.data ==> x.State() == old(x.State())
    {
      err := h.Undo();
    }

    /** `redo()` on a history the manager holds; only that history and its
        deltas change. */
    method RedoHeld(h: History) returns (err: Option<UndoError>)
      requires Valid() && h in Hs
      modifies h`done, h.data`active, h.data`done
      ensures Valid()
      ensures HistRun(h.State(), Snap(h.data), err) == old(h.RedoResult())
      ensures forall g :: g in old(Hs) && g != h ==> g.State() == old(g.State())
      ensures forall x: Delta :: x in old(Repr) && x !in h.data ==> x.State() == old(x.State())
    {
      err := h.Redo();
    }

    /** `undoLast()`: refuses while the current history holds deltas; else
        pops the last undo entry, undoes it and pushes it on the redo stack.
        An entry whose undo raises is on neither stack afterwards. */
    method UndoLast() returns (err: Option<UndoError>)
      requires Valid()
      modifies Repr
      ensures Valid() && Repr == old(Repr) && history == old(history)
      ensures old(history.data) != [] ==>
        err == Some(NotCheckpointed) && undos == old(undos) && redos == old(redos)
      ensures old(history.data) == [] && old(undos) == [] ==>
        err == Some(EmptyUndoStack) && undos == [] && redos == old(redos)
      ensures old(history.data) == [] && old(undos) != [] ==>
        && undos == old(undos[..|undos| - 1])
        && err == old(undos[|undos| - 1].UndoResult()).err
        && redos == if err.None? then old(redos) + [old(undos[|undos| - 1])] else old(redos)
      ensures old(history.data) == [] && old(undos) != [] ==>
        var moved := old(undos[|undos| - 1]);
        && HistRun(moved.State(), Snap(moved.data), err) == old(moved.UndoResult())
        && (forall h :: h in old(Hs) && h != moved ==> h.State() == old(h.State()))
        && (forall x: Delta :: x in old(Repr) && x !in old(moved.data) ==> x.State() == old(x.State()))
      ensures old(history.data) != [] || old(undos) == [] ==>
        (forall h :: h in old(Hs) ==> h.State() == old(h.State())) && (forall x: Delta :: x in old(Repr) ==> x.State() == old(x.State()))
    {
      if |history.data| > 0 {
        return Some(NotCheckpointed);
      }
      if undos == [] {
        return Some(EmptyUndoStack);
      }
      var last := undos[|undos| - 1];
      // undo does not touch the stacks, so it may run before the pop
      err := UndoHeld(last);
      MoveUndone(err.None?);
    }

    /** The stack moves of `undoLast()`: the last undo entry is popped and,
        when it was undone, pushed on the redo stack. */
    method MoveUndone(ok: bool)
      requires Valid() && undos != []
      modifies this`undos, this`redos
      ensures Valid()
      ensures undos == old(undos[..|undos| - 1])
      ensures redos == if ok then old(redos) + [old(undos[|undos| - 1])] else old(redos)
    {
      var last := undos[|undos| - 1];
      undos := undos[..|undos| - 1];
      if ok {
        redos := redos + [last];
      }
    }

    /** `redoNext()`: pops the last redo entry, redoes it and pushes it on
        the undo stack; raises when there is nothing to redo. */
    method RedoNext() returns (err: Option<UndoError>)
      requires Valid()
      modifies Repr
      ensures Valid() && Repr == old(Repr) && history == old(history)
      ensures old(redos) == [] ==>
        err == Some(NothingToRedo) && undos == old(undos) && redos == []
      ensures old(redos) != [] ==>
        && redos == old(redos[..|redos| - 1])
        && err == old(redos[|redos| - 1].RedoResult()).err
        && undos == if err.None? then old(undos) + [old(redos[|redos| - 1])] else old(undos)
      ensures old(redos) != [] ==>
        var moved := old(redos[|redos| - 1]);
        && HistRun(moved.State(), Snap(moved.data), err) == old(moved.RedoResult())
        && (forall h :: h in old(Hs) && h != moved ==> h.State() == old(h.State()))
        && (forall x: Delta :: x in old(Repr) && x !in old(moved.data) ==> x.State() == old(x.State()))
      ensures old(redos) == [] ==>
        (forall h :: h in old(Hs) ==> h.State() == old(h.State())) && (forall x: Delta :: x in old(Repr) ==> x.State() == old(x.State()))
    {
      if redos == [] {
        return Some(NothingToRedo);
      }
      var next := redos[|redos| - 1];
      // redo does not touch the stacks, so it may run before the pop
      err := RedoHeld(next);
      MoveRedone(err.None?);
    }

    /** The stack moves of `redoNext()`: the last redo entry is popped and,
        when it was redone, pushed on the undo stack. */
    method MoveRedone(ok: bool)
      requires Valid() && redos != []
      modifies this`undos, this`redos
      ensures Valid()
      ensures redos == old(redos[..|redos| - 1])
      ensures undos == if ok then old(undos) + [old(redos[|redos| - 1])] else old(undos)
    {
      var next := redos[|redos| - 1];
      redos := redos[..|redos| - 1];
      if ok {
        undos := undos + [next];
      }
    }
  }
}
