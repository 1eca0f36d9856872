/** The DB-API connection layer (`peak/storage/SQL.py`): quote escaping for
    SQL string literals, the rule that ties a cursor's `outsideTxn` setting
    to the database transaction, the row converter built from a result
    description, the cursor's check for a second result set, the Sybase
    procedure mode and Oracle's commit error rule. */
module SqlStorage {
  import opened Base

  // ---------------------------------------------------------------------
  // sqlsafestr
  // ---------------------------------------------------------------------

  /** `sqlsafestr(s)`: every single quote doubled, as `s.replace("'", "''")`. */
  function SafeStr(s: string): string
  {
    Replace(s, "'", "''")
  }

  /** What one character becomes inside an escaped literal. */
  function Escaped(c: char): string
  {
    if c == '\'' then "''" else [c]
  }

  /** Reading an escaped literal back: a doubled quote stands for one quote;
      a lone quote (which would end the literal) makes the text invalid. */
  function Unescape(r: string): (t: Option<string>)
    ensures t.Some? ==> |t.value| <= |r|
    ensures '\'' !in r ==> t == Some(r)
    decreases |r|
  {
    if r == [] then Some([])
    else if r[0] == '\'' then
      if |r| >= 2 && r[1] == '\'' then
        match Unescape(r[2..]) {
          case Some(t) => Some("'" + t)
          case None => None
        }
      else None
    else
      match Unescape(r[1..]) {
        case Some(t) => assert [r[0]] + r[1..] == r; Some([r[0]] + t)
        case None => None
      }
  }

  /** The number of single quotes in `s`. */
  function Quotes(s: string): nat
  {
    if s == [] then 0 else (if s[0] == '\'' then 1 else 0) + Quotes(s[1..])
  }

  /** Escaping works character by character, from the left. */
  lemma SafeStrCons(c: char, s: string)
    ensures SafeStr([c] + s) == Escaped(c) + SafeStr(s)
  {
    var t := [c] + s;
    assert t[..1] == [c] && t[1..] == s;
  }

  /** Every quote gains a partner and nothing else is added. */
  lemma {:induction false} SafeStrLength(s: string)
    ensures |SafeStr(s)| == |s| + Quotes(s)
    decreases |s|
  {
    if s != [] {
      SafeStrCons(s[0], s[1..]);
      SafeStrLength(s[1..]);
      assert [s[0]] + s[1..] == s;
    }
  }

  /** Text without quotes passes through unchanged. */
  lemma {:induction false} SafeStrNoQuotes(s: string)
    requires '\'' !in s
    ensures SafeStr(s) == s
    decreases |s|
  {
    if s != [] {
      SafeStrCons(s[0], s[1..]);
      SafeStrNoQuotes(s[1..]);
      assert [s[0]] + s[1..] == s;
    }
  }

  /** The escaped text reads back as the original: it holds no lone quote. */
  lemma {:induction false} UnescapeSafeStr(s: string)
    ensures Unescape(SafeStr(s)) == Some(s)
    decreases |s|
  {
    if s != [] {
      SafeStrCons(s[0], s[1..]);
      UnescapeSafeStr(s[1..]);
      var r := Escaped(s[0]) + SafeStr(s[1..]);
      if s[0] == '\'' {
        assert r[0] == '\'' && r[1] == '\'' && r[2..] == SafeStr(s[1..]);
      } else {
        assert r[0] == s[0] && r[1..] == SafeStr(s[1..]);
      }
      assert [s[0]] + s[1..] == s;
    }
  }

  /** Conversely, a text that reads back as `s` is the escaping of `s`:
      `SafeStr` is the only escaping with no lone quote. */
  lemma {:induction false} SafeStrUnique(r: string, s: string)
    requires Unescape(r) == Some(s)
    ensures SafeStr(s) == r
    decreases |r|
  {
    if r != [] {
      if r[0] == '\'' {
        var t := Unescape(r[2..]).value;
        SafeStrUnique(r[2..], t);
        SafeStrCons('\'', t);
        assert r == "''" + r[2..];
      } else {
        var t := Unescape(r[1..]).value;
        SafeStrUnique(r[1..], t);
        SafeStrCons(r[0], t);
        assert r == [r[0]] + r[1..];
      }
    }
  }

  lemma SafeStrExamples()
    ensures SafeStr("it's") == "it''s"
    ensures SafeStr("plain") == "plain"
  {
    SafeStrNoQuotes("s");
    SafeStrCons('\'', "s");
    SafeStrCons('t', "'s");
    SafeStrCons('i', "t's");
    SafeStrNoQuotes("plain");
  }

  lemma SafeStrQuotesOnly()
    ensures SafeStr("''") == "''''"
  {
    SafeStrCons('\'', "");
    SafeStrCons('\'', "'");
  }

  // ---------------------------------------------------------------------
  // setTxnState
  // ---------------------------------------------------------------------

  datatype TxnError =
    | TransactionInProgress
    /** `_startDBTxn` raised: the base class cannot start a transaction. */
    | StartUnsupported

  /** The outcome of `setTxnState`: the new `dbTxnStarted`, whether
      `_startDBTxn` was called, and whether the call raised. */
  datatype TxnStep = TxnStep(started: bool, calledStart: bool, result: Result<(), TxnError>)

  /** `setTxnState(outsideTxn)` on a connection whose `dbTxnStarted` is
      `started`. `outsideTxn` is `Some(true)` for a statement that must run
      outside any database transaction, `Some(false)` for one that needs a
      transaction and `None` for one that does not care. `start` is what the
      driver's `_startDBTxn` does: `Some(b)` returns `b`; `None` raises. */
  function SetTxn(started: bool, outsideTxn: Option<bool>, start: Option<bool>): TxnStep
  {
    match outsideTxn {
      case Some(true) =>
        if started then TxnStep(started, false, Err(TransactionInProgress))
        else TxnStep(started, false, Ok(()))
      case Some(false) =>
        if started then TxnStep(started, false, Ok(()))
        else if start.None? then TxnStep(started, true, Err(StartUnsupported))
        else TxnStep(start.value, true, Ok(()))
      case None => TxnStep(started, false, Ok(()))
    }
  }

  /** The three rules of `setTxnState`, both ways round. */
  lemma SetTxnRules(started: bool, outsideTxn: Option<bool>, start: Option<bool>)
    ensures SetTxn(started, outsideTxn, start).result == Err(TransactionInProgress) <==>
      outsideTxn == Some(true) && started
    ensures SetTxn(started, outsideTxn, start).calledStart <==>
      outsideTxn == Some(false) && !started
    ensures SetTxn(started, outsideTxn, start).started != started ==>
      outsideTxn == Some(false) && !started
    ensures outsideTxn == None ==>
      SetTxn(started, outsideTxn, start) == TxnStep(started, false, Ok(()))
  {
  }

  /** Once a statement has started the transaction, later statements that
      need one do not start another. */
  lemma StartsOnce(started: bool, first: Option<bool>, second: Option<bool>)
    requires SetTxn(started, Some(false), first).started
    ensures !SetTxn(true, Some(false), second).calledStart
    ensures SetTxn(SetTxn(started, Some(false), first).started, Some(false), second) ==
      TxnStep(true, false, Ok(()))
  {
  }

  /** A connection's transaction flag (`dbTxnStarted`, `True` on a generic
      connection and `False` on Sybase) and whether it has joined the PEAK
      transaction, which `setTxnState` always does first. */
  class SqlConnection {
    var dbTxnStarted: bool
    var joinedTxn: bool

    constructor (started: bool)
      ensures dbTxnStarted == started && !joinedTxn
    {
      dbTxnStarted := started;
      joinedTxn := false;
    }

    method SetTxnState(outsideTxn: Option<bool>, start: Option<bool>) returns (r: Result<(), TxnError>)
      modifies this
      ensures joinedTxn
      ensures dbTxnStarted == SetTxn(old(dbTxnStarted), outsideTxn, start).started
      ensures r == SetTxn(old(dbTxnStarted), outsideTxn, start).result
    {
      joinedTxn := true;
      r := Ok(());
      if outsideTxn == Some(true) {
        if dbTxnStarted {
          r := Err(TransactionInProgress);
        }
      } else if outsideTxn == Some(false) {
        if !dbTxnStarted {
          if start.None? {
            r := Err(StartUnsupported);
          } else {
            dbTxnStarted := start.value;
          }
        }
      }
    }
  }

  // ---------------------------------------------------------------------
  // Oracle: the read-only transaction and the commit rule
  // ---------------------------------------------------------------------

  /** `_errCode`: the text of the error message before its first `:`. */
  function ErrCode(msg: string): string
  {
    Split(msg, ':')[0]
  }

  /** The code is the longest prefix without a `:`. */
  lemma {:induction false} ErrCodePrefix(msg: string)
    ensures IsPrefix(ErrCode(msg), msg)
    ensures ':' !in ErrCode(msg)
    ensures |ErrCode(msg)| < |msg| ==> msg[|ErrCode(msg)|] == ':'
    decreases |msg|
  {
    if msg != [] && msg[0] != ':' {
      ErrCodePrefix(msg[1..]);
      assert ErrCode(msg) == [msg[0]] + ErrCode(msg[1..]);
    }
  }

  /** The code of `code + ":" + detail`, for a code without a colon. */
  lemma {:induction false} ErrCodeOf(code: string, detail: string)
    requires ':' !in code
    ensures ErrCode(code + ":" + detail) == code
    decreases |code|
  {
    var msg := code + ":" + detail;
    if code != [] {
      ErrCodeOf(code[1..], detail);
      assert msg[0] == code[0] && msg[1..] == code[1..] + ":" + detail;
      assert [code[0]] + code[1..] == code;
    }
  }

  /** The Oracle error raised on a two-phase commit that changed no rows. */
  const NoRowsChanged: string := "ORA-24756"

  /** `commitTransaction`: `failure` is the text of the error `_doCommit`
      raised, if any. Only the no-rows-changed error is swallowed. */
  function OracleCommit(failure: Option<string>): Result<(), string>
  {
    if failure.Some? && ErrCode(failure.value) != NoRowsChanged then Err(failure.value) else Ok(())
  }

  lemma OracleCommitRule(failure: Option<string>, detail: string)
    ensures failure == None ==> OracleCommit(failure) == Ok(())
    ensures OracleCommit(Some(NoRowsChanged + ":" + detail)) == Ok(())
    ensures OracleCommit(Some("ORA-00060:" + detail)) == Err("ORA-00060:" + detail)
    ensures forall m :: OracleCommit(Some(m)).Ok? <==> ErrCode(m) == NoRowsChanged
  {
    ErrCodeOf(NoRowsChanged, detail);
    ErrCodeOf("ORA-00060", detail);
    assert "ORA-00060:" + detail == "ORA-00060" + ":" + detail;
  }

  /** An Oracle connection: besides the transaction flag it remembers
      whether a read-only transaction is open, and whether an error has
      asked for the connection to be closed (`closeASAP`). */
  class OracleConnection {
    var dbTxnStarted: bool
    var dbTxnReadOnly: bool
    var joinedTxn: bool
    var closing: bool

    constructor ()
      ensures !dbTxnStarted && !dbTxnReadOnly && !joinedTxn && !closing
    {
      dbTxnStarted, dbTxnReadOnly := false, false;
      joinedTxn, closing := false, false;
    }

    /** The generic rule, then a read-only transaction whenever no
        transaction of either kind is open. `_startDBTxn` of an Oracle
        connection returns `True` unless the driver raises. */
    method SetTxnState(outsideTxn: Option<bool>, start: Option<bool>) returns (r: Result<(), TxnError>)
      modifies this`dbTxnStarted, this`dbTxnReadOnly, this`joinedTxn
      ensures joinedTxn
      ensures dbTxnStarted == SetTxn(old(dbTxnStarted), outsideTxn, start).started
      ensures r == SetTxn(old(dbTxnStarted), outsideTxn, start).result
      ensures dbTxnReadOnly == (old(dbTxnReadOnly) || (r.Ok? && !dbTxnStarted))
    {
      var step := SetTxn(dbTxnStarted, outsideTxn, start);
      joinedTxn := true;
      dbTxnStarted := step.started;
      r := step.result;
      if r.Ok? && !dbTxnStarted && !dbTxnReadOnly {
        dbTxnReadOnly := true;
      }
    }

    method CommitTransaction(failure: Option<string>) returns (r: Result<(), string>)
      modifies this`closing
      ensures r == OracleCommit(failure)
      ensures closing == (old(closing) || failure.Some?)
    {
      r := Ok(());
      if failure.Some? {
        closing := true;
        if ErrCode(failure.value) != NoRowsChanged {
          r := Err(failure.value);
        }
      }
    }
  }

  // ---------------------------------------------------------------------
  // getRowConverter
  // ---------------------------------------------------------------------

  /** A column converter from the type map; `NullConverter` returns the
      value unchanged, the others are told apart by an identifier. */
  datatype Conv = NullConverter | Converter(id: nat)

  /** One entry of a cursor's description: the column name and type code. */
  datatype Column<T> = Column(name: string, typeCode: T)

  /** `typeMap.get(d[1], NullConverter)`. */
  function ConvFor<T>(typeMap: map<T, Conv>, d: Column<T>): Conv
  {
    if d.typeCode in typeMap then typeMap[d.typeCode] else NullConverter
  }

  /** The converters of a description, one per column. */
  function Converters<T>(descr: seq<Column<T>>, typeMap: map<T, Conv>): (r: seq<Conv>)
    ensures |r| == |descr|
    ensures forall i :: 0 <= i < |descr| ==> r[i] == ConvFor(typeMap, descr[i])
  {
    seq(|descr|, i requires 0 <= i < |descr| => ConvFor(typeMap, descr[i]))
  }

  /** What `getRowConverter` returns: the post-processor itself, or a
      function that converts the columns and then applies it. */
  datatype RowConverter<T, P> =
    | PostOnly(post: Option<P>)
    | ColumnWise(descr: seq<Column<T>>, convs: seq<Conv>, post: Option<P>)

  /** The row converter for a description. */
  function RowConverterFor<T, P>(descr: seq<Column<T>>, typeMap: map<T, Conv>, post: Option<P>): RowConverter<T, P>
  {
    if forall i :: 0 <= i < |descr| ==> ConvFor(typeMap, descr[i]) == NullConverter then PostOnly(post)
    else ColumnWise(descr, Converters(descr, typeMap), post)
  }

  /** `getRowConverter(description, post)`: scans the converters for one
      that is not the null converter. */
  method GetRowConverter<T, P>(descr: seq<Column<T>>, typeMap: map<T, Conv>, post: Option<P>)
    returns (r: RowConverter<T, P>)
    ensures (forall i :: 0 <= i < |descr| ==> ConvFor(typeMap, descr[i]) == NullConverter) ==> r == PostOnly(post)
    ensures (exists i :: 0 <= i < |descr| && ConvFor(typeMap, descr[i]) != NullConverter) ==>
      r == ColumnWise(descr, Converters(descr, typeMap), post)
  {
    var converters := Converters(descr, typeMap);
    var i := 0;
    while i < |converters|
      invariant 0 <= i <= |converters|
      invariant forall k :: 0 <= k < i ==> ConvFor(typeMap, descr[k]) == NullConverter
    {
      if converters[i] != NullConverter {
        return ColumnWise(descr, converters, post);
      }
      i := i + 1;
    }
    return PostOnly(post);
  }

  /** One column through its converter; `f(id, d, v)` is what converter
      `id`, bound to description entry `d`, makes of the value `v`. */
  function ConvertCol<T, V>(c: Conv, d: Column<T>, v: V, f: (nat, Column<T>, V) -> V): (r: V)
    ensures c.NullConverter? ==> r == v
  {
    match c
    case NullConverter => v
    case Converter(id) => f(id, d, v)
  }

  /** `[conv(col) for (col, conv) in zip(row, converters)]`. */
  function ZipConvert<T, V>(row: seq<V>, descr: seq<Column<T>>, convs: seq<Conv>, f: (nat, Column<T>, V) -> V): (r: seq<V>)
    requires |convs| == |descr|
    ensures |r| == if |row| < |convs| then |row| else |convs|
    ensures forall i :: 0 <= i < |r| ==> r[i] == ConvertCol(convs[i], descr[i], row[i], f)
    decreases |row|
  {
    if row == [] || convs == [] then []
    else [ConvertCol(convs[0], descr[0], row[0], f)] + ZipConvert(row[1..], descr[1..], convs[1..], f)
  }

  /** What calling a row converter on a row gives: a plain list, the
      post-processor applied to a list, or an error because the converter
      is `None` and cannot be called. */
  datatype RowResult<V, P> = Plain(cols: seq<V>) | Posted(post: P, cols: seq<V>) | NotCallable

  function ApplyRow<T, V, P>(rc: RowConverter<T, P>, row: seq<V>, f: (nat, Column<T>, V) -> V): (r: RowResult<V, P>)
    requires rc.ColumnWise? ==> |rc.convs| == |rc.descr|
    ensures r.NotCallable? <==> rc == PostOnly(None)
    ensures rc.PostOnly? && r.Posted? ==> r.cols == row
    ensures rc.ColumnWise? ==> (r.Posted? <==> rc.post.Some?) && !r.NotCallable?
    ensures rc.ColumnWise? && |row| == |rc.convs| ==> |r.cols| == |row|
  {
    match rc
    case PostOnly(None) => NotCallable
    case PostOnly(Some(p)) => Posted(p, row)
    case ColumnWise(d, c, None) => Plain(ZipConvert(row, d, c, f))
    case ColumnWise(d, c, Some(p)) => Posted(p, ZipConvert(row, d, c, f))
  }

  /** Converting every column unconditionally, the reference the shortcut
      must agree with. */
  function ConvertAllColumns<T, V, P>(descr: seq<Column<T>>, typeMap: map<T, Conv>, post: Option<P>,
                                      row: seq<V>, f: (nat, Column<T>, V) -> V): RowResult<V, P>
  {
    var cols := ZipConvert(row, descr, Converters(descr, typeMap), f);
    if post.Some? then Posted(post.value, cols) else Plain(cols)
  }

  /** Returning the bare post-processor loses nothing: on a row that fits the
      description, the converter behaves as converting every column. */
  lemma {:induction false} RowConverterSound<T, V, P>(descr: seq<Column<T>>, typeMap: map<T, Conv>, post: Option<P>,
                                                      row: seq<V>, f: (nat, Column<T>, V) -> V)
    requires |row| == |descr|
    ensures post.Some? ==>
      ApplyRow(RowConverterFor(descr, typeMap, post), row, f) == ConvertAllColumns(descr, typeMap, post, row, f)
    ensures post.None? && RowConverterFor(descr, typeMap, post).PostOnly? ==>
      ApplyRow(RowConverterFor(descr, typeMap, post), row, f) == NotCallable
    ensures forall r :: r in ConvertAllColumns(descr, typeMap, post, row, f).cols ==>
      (r in row || exists i, id :: 0 <= i < |row| && r == f(id, descr[i], row[i]))
  {
    var cols := ZipConvert(row, descr, Converters(descr, typeMap), f);
    if forall i :: 0 <= i < |descr| ==> ConvFor(typeMap, descr[i]) == NullConverter {
      assert cols == row;
    }
    forall r | r in cols
      ensures r in row || exists i, id :: 0 <= i < |row| && r == f(id, descr[i], row[i])
    {
      var i :| 0 <= i < |cols| && cols[i] == r;
      if ConvFor(typeMap, descr[i]).Converter? {
        assert r == f(ConvFor(typeMap, descr[i]).id, descr[i], row[i]);
      }
    }
  }

  // ---------------------------------------------------------------------
  // SQLCursor.__iter__
  // ---------------------------------------------------------------------

  datatype CursorError = TooManyResults

  /** How many of the successive `fetchmany()` results come before the
      first empty one: the batches the cursor iterates over. */
  function FetchedCount<V>(batches: seq<seq<V>>): (n: nat)
    ensures n <= |batches|
    ensures forall k :: 0 <= k < n ==> batches[k] != []
    ensures n < |batches| ==> batches[n] == []
  {
    if batches == [] || batches[0] == [] then 0 else 1 + FetchedCount(batches[1..])
  }

  /** Every row converted, in fetch order. */
  function ConvertRows<T, V, P>(rc: RowConverter<T, P>, rows: seq<seq<V>>, f: (nat, Column<T>, V) -> V): (r: seq<RowResult<V, P>>)
    requires rc.ColumnWise? ==> |rc.convs| == |rc.descr|
    ensures |r| == |rows|
    ensures forall k :: 0 <= k < |rows| ==> r[k] == ApplyRow(rc, rows[k], f)
  {
    seq(|rows|, k requires 0 <= k < |rows| => ApplyRow(rc, rows[k], f))
  }

  /** What iterating a cursor yields, and whether it then raises. The
      cursor's `description` is `descr` (empty when there is no result
      set); `batches` are the successive `fetchmany()` results (any later
      fetch returns no rows); `moreSets` is what `nextset()` reports; each
      row goes through the row converter built with the row-struct
      constructor `mkTuple`. */
  method IterateCursor<T, V, P>(descr: seq<Column<T>>, typeMap: map<T, Conv>, mkTuple: P,
                                batches: seq<seq<seq<V>>>, multiOK: bool, moreSets: bool,
                                f: (nat, Column<T>, V) -> V)
    returns (out: seq<RowResult<V, P>>, err: Option<CursorError>)
    ensures descr == [] ==> out == [] && err == None
    ensures descr != [] ==>
      out == ConvertRows(RowConverterFor(descr, typeMap, Some(mkTuple)), Flatten(batches[..FetchedCount(batches)]), f)
    ensures err == Some(TooManyResults) <==> descr != [] && !multiOK && moreSets
    ensures err != Some(TooManyResults) ==> err == None
  {
    out, err := [], None;
    if descr == [] {
      return;
    }
    var rc := GetRowConverter(descr, typeMap, Some(mkTuple));
    assert rc == RowConverterFor(descr, typeMap, Some(mkTuple));
    var i := 0;
    while i < |batches| && batches[i] != []
      invariant 0 <= i <= |batches|
      invariant forall k :: 0 <= k < i ==> batches[k] != []
      invariant out == ConvertRows(rc, Flatten(batches[..i]), f)
    {
      out := ConvertBatch(rc, batches[i], out, f);
      assert batches[..i + 1][..i] == batches[..i];
      assert Flatten(batches[..i + 1]) == Flatten(batches[..i]) + batches[i];
      i := i + 1;
    }
    if !multiOK && moreSets {
      err := Some(TooManyResults);
    }
  }

  /** `for row in rows: yield converter(row)`, appended to what was
      yielded before. */
  method ConvertBatch<T, V, P>(rc: RowConverter<T, P>, rows: seq<seq<V>>, before: seq<RowResult<V, P>>,
                               f: (nat, Column<T>, V) -> V)
    returns (out: seq<RowResult<V, P>>)
    requires rc.ColumnWise? ==> |rc.convs| == |rc.descr|
    ensures |out| == |before| + |rows|
    ensures out[..|before|] == before
    ensures forall k :: 0 <= k < |rows| ==> out[|before| + k] == ApplyRow(rc, rows[k], f)
  {
    out := before;
    var j := 0;
    while j < |rows|
      invariant 0 <= j <= |rows|
      invariant |out| == |before| + j
      invariant out[..|before|] == before
      invariant forall k :: 0 <= k < j ==> out[|before| + k] == ApplyRow(rc, rows[k], f)
    {
      out := out + [ApplyRow(rc, rows[j], f)];
      j := j + 1;
    }
  }

  // ---------------------------------------------------------------------
  // Sybase procedure mode (getDDLForObject)
  // ---------------------------------------------------------------------

  /** `sysstat2 >> 4 & 0x3`. Python shifts right by flooring and masks in
      two's complement, which for every integer is the floored quotient by
      16 taken modulo 4; Dafny's `/` and `%` by positive divisors are exactly
      those. */
  function ModeBits(sysstat2: int): (m: int)
    ensures 0 <= m < 4
  {
    (sysstat2 / 16) % 4
  }

  /** The mode names of a Sybase procedure, by the value of their bits. */
  function ModeName(bits: int): Option<string>
  {
    if bits == 0 then Some("unchained")
    else if bits == 1 then Some("chained")
    else if bits == 2 then Some("anymode")
    else None
  }

  /** The mode written after a procedure's DDL: only a Sybase procedure
      (`kind` is the stripped object type) has one. */
  function ProcMode(kind: string, sybase: bool, sysstat2: int): Option<string>
  {
    if kind == "P" && sybase then ModeName(ModeBits(sysstat2)) else None
  }

  /** Only bits 4 and 5 matter: the other bits can be anything. */
  lemma ModeBitsOnly(high: int, bits: int, low: int)
    requires 0 <= bits < 4 && 0 <= low < 16
    ensures ModeBits(64 * high + 16 * bits + low) == bits
  {
    var s := 64 * high + 16 * bits + low;
    assert s / 16 == 4 * high + bits;
  }

  /** The decoding, value by value: 0, 1 and 2 name a mode, 3 names none. */
  lemma ProcModeValues(high: int, bits: int, low: int, kind: string)
    requires 0 <= bits < 4 && 0 <= low < 16
    ensures ProcMode("P", true, 64 * high + 16 * bits + low) ==
      if bits == 0 then Some("unchained")
      else if bits == 1 then Some("chained")
      else if bits == 2 then Some("anymode")
      else None
    ensures kind != "P" ==> ProcMode(kind, true, 64 * high + 16 * bits + low) == None
    ensures ProcMode("P", false, 64 * high + 16 * bits + low) == None
  {
    ModeBitsOnly(high, bits, low);
  }

  /** A negative `sysstat2` (a signed smallint) decodes like Python's. */
  lemma ModeOfNegative()
    ensures ModeBits(-1) == 3 && ModeName(ModeBits(-1)) == None
    ensures ModeBits(-48) == 1
  {
  }
}
