/** Price data for the stock predictor (`StockData.py`): reading a window of
    closing prices from the rows of a CSV price history, finding the row of a
    date, and cutting a date/price table into all its contiguous runs. The
    CSV file is given as its rows, already parsed: the first row is the
    header, every other row a date and a closing price (column 4). */
module StockData {
  import opened Base

  /** A data row of the price history. */
  datatype Row = Row(date: string, close: real)

  /** `next()` on the exhausted reader. */
  datatype CsvError = StopIteration

  // ---------------------------------------------------------------------
  // getDataCsv
  // ---------------------------------------------------------------------

  /** The prices of `rows` keyed by day number, the first row being day
      `day`: the loop stops after the row of day `endDay`, or when the rows
      run out. */
  function Window(rows: seq<Row>, day: int, endDay: int): map<int, real>
    decreases |rows|
  {
    if rows == [] then map[]
    else if day == endDay then map[day := rows[0].close]
    else Window(rows[1..], day + 1, endDay)[day := rows[0].close]
  }

  /** The window holds one consecutive day per row from `day` on, up to
      `endDay` when that is not before `day`, each with its row's price. */
  lemma {:induction false} WindowDays(rows: seq<Row>, day: int, endDay: int)
    ensures forall k :: k in Window(rows, day, endDay) <==>
      day <= k < day + |rows| && (day <= endDay ==> k <= endDay)
    ensures forall k :: k in Window(rows, day, endDay) ==> Window(rows, day, endDay)[k] == rows[k - day].close
    decreases |rows|
  {
    if rows != [] && day != endDay {
      WindowDays(rows[1..], day + 1, endDay);
    }
  }

  /** `getDataCsv(filename, startDay, endDay)` on the file's rows: the header
      and then `startDay` rows are skipped (running out raises
      `StopIteration`), and the window starts at day `startDay`. */
  function DataCsv(csv: seq<Row>, startDay: int, endDay: int): Result<map<int, real>, CsvError>
  {
    var skip := if startDay < 0 then 0 else startDay;
    if |csv| == 0 || skip > |csv| - 1 then Err(StopIteration)
    else Ok(Window(csv[1 + skip..], startDay, endDay))
  }

  /** For a window that starts at a non-negative day, day `d` holds the
      price of data row `d`, for every day from `startDay` to `endDay` that
      the file has a row for. */
  lemma DataCsvDays(csv: seq<Row>, startDay: nat, endDay: int)
    requires startDay <= endDay && startDay < |csv|
    ensures DataCsv(csv, startDay, endDay).Ok?
    ensures forall d :: d in DataCsv(csv, startDay, endDay).value <==> startDay <= d <= endDay && d < |csv| - 1
    ensures forall d :: d in DataCsv(csv, startDay, endDay).value ==> DataCsv(csv, startDay, endDay).value[d] == csv[1 + d].close
  {
    WindowDays(csv[1 + startDay..], startDay, endDay);
  }

  /** One copying step: the price of the first row moves from the rest of
      the window into the values copied so far. */
  lemma WindowStep(rows: seq<Row>, day: int, endDay: int, values: map<int, real>)
    requires rows != [] && day != endDay
    requires forall k :: k in values ==> k < day
    ensures Window(rows[1..], day + 1, endDay) + values[day := rows[0].close] == Window(rows, day, endDay) + values
  {
    WindowDays(rows[1..], day + 1, endDay);
  }

  /** The copying loop of `getDataCsv`: one entry per row from day `day`
      on, stopping after day `endDay`. */
  method CopyWindow(rows: seq<Row>, day: int, endDay: int) returns (values: map<int, real>)
    ensures values == Window(rows, day, endDay)
  {
    values := map[];
    var currDay := day;
    var pos := 0;
    while pos < |rows|
      invariant 0 <= pos <= |rows|
      invariant currDay == day + pos
      invariant forall k :: k in values ==> k < currDay
      invariant Window(rows, day, endDay) == Window(rows[pos..], currDay, endDay) + values
      decreases |rows| - pos
    {
      if currDay == endDay {
        values := values[currDay := rows[pos].close];
        return;
      }
      WindowStep(rows[pos..], currDay, endDay, values);
      assert rows[pos..][1..] == rows[pos + 1..];
      values := values[currDay := rows[pos].close];
      currDay := currDay + 1;
      pos := pos + 1;
    }
  }

  /** `getDataCsv` with its skipping loop, then the copying loop. */
  method GetDataCsv(csv: seq<Row>, startDay: int, endDay: int) returns (r: Result<map<int, real>, CsvError>)
    ensures r == DataCsv(csv, startDay, endDay)
  {
    if |csv| == 0 {
      return Err(StopIteration);
    }
    var pos := 1;
    var index := 0;
    while index < startDay
      invariant 0 <= index && (startDay >= 0 ==> index <= startDay) && (startDay < 0 ==> index == 0)
      invariant pos == 1 + index && pos <= |csv|
    {
      if pos == |csv| {
        return Err(StopIteration);
      }
      pos := pos + 1;
      index := index + 1;
    }
    var values := CopyWindow(csv[pos..], startDay, endDay);
    return Ok(values);
  }

  // ---------------------------------------------------------------------
  // getDayOffsetCsv and getDateValueCsv
  // ---------------------------------------------------------------------

  /** Some data row has the date `date`. */
  predicate HasDate(data: seq<Row>, date: string)
  {
    exists i :: 0 <= i < |data| && data[i].date == date
  }

  /** The 0-based data row whose date is `date`, the first one if several. */
  predicate FirstDate(data: seq<Row>, date: string, i: int)
  {
    0 <= i < |data| && data[i].date == date && forall j :: 0 <= j < i ==> data[j].date != date
  }

  /** `getDayOffsetCsv(filename, date)`: the index of the first data row of
      that date, or 0 when no row has it. */
  method GetDayOffsetCsv(csv: seq<Row>, date: string) returns (r: Result<nat, CsvError>)
    ensures |csv| == 0 <==> r == Err(StopIteration)
    ensures |csv| > 0 && HasDate(csv[1..], date) ==> r.Ok? && FirstDate(csv[1..], date, r.value)
    ensures |csv| > 0 && !HasDate(csv[1..], date) ==> r == Ok(0)
  {
    if |csv| == 0 {
      return Err(StopIteration);
    }
    var data := csv[1..];
    var index := 0;
    while index < |data|
      invariant 0 <= index <= |data|
      invariant forall j :: 0 <= j < index ==> data[j].date != date
    {
      if data[index].date == date {
        return Ok(index);
      }
      index := index + 1;
    }
    return Ok(0);
  }

  /** `getDateValueCsv(dataset, dateOffset, filename)`: the window of the
      dataset's first and last day numbers, both moved by `dateOffset`. */
  function DateValueCsv(dataset: (int, int), dateOffset: int, csv: seq<Row>): Result<map<int, real>, CsvError>
  {
    DataCsv(csv, dataset.0 + dateOffset, dataset.1 + dateOffset)
  }

  /** Shifting a dataset by an offset reads the days it covers shifted by
      the same offset. */
  lemma DateValueShift(dataset: (int, int), dateOffset: int, csv: seq<Row>)
    requires 0 <= dataset.0 + dateOffset <= dataset.1 + dateOffset && dataset.0 + dateOffset < |csv|
    ensures DateValueCsv(dataset, dateOffset, csv).Ok?
    ensures forall d :: d in DateValueCsv(dataset, dateOffset, csv).value <==>
      dataset.0 + dateOffset <= d <= dataset.1 + dateOffset && d < |csv| - 1
  {
    DataCsvDays(csv, dataset.0 + dateOffset, dataset.1 + dateOffset);
  }

  // ---------------------------------------------------------------------
  // getAllContigSubsetsList
  // ---------------------------------------------------------------------

  /** The slices of `a` that start at `i`, shortest first. */
  function Ends<T>(a: seq<T>, i: nat): (r: seq<seq<T>>)
    requires i <= |a|
    ensures |r| == |a| - i
    ensures forall k :: 0 <= k < |r| ==> r[k] == a[i..i + k + 1]
  {
    seq(|a| - i, k requires 0 <= k < |a| - i => a[i..i + k + 1])
  }

  /** The slices of `a` that start before `i`, by start and then by end. */
  function Starts<T>(a: seq<T>, i: nat): seq<seq<T>>
    requires i <= |a|
  {
    if i == 0 then [] else Starts(a, i - 1) + Ends(a, i - 1)
  }

  /** `getAllContigSubsetsList(alist)`: `[alist[i:j+1] for i in
      xrange(n) for j in xrange(i, n)]`. */
  function ContigSubsets<T>(a: seq<T>): seq<seq<T>>
  {
    Starts(a, |a|)
  }

  /** How many slices start before `i`. */
  function Offset(n: nat, i: nat): nat
    requires i <= n
  {
    if i == 0 then 0 else Offset(n, i - 1) + (n - (i - 1))
  }

  /** `a[i:j+1]`: the run of `a` from `i` to `j`, both included. */
  function Slice<T>(a: seq<T>, i: nat, j: nat): seq<T>
    requires i <= j < |a|
  {
    a[i..j + 1]
  }

  /** The position of the slice from `i` to `j` (inclusive) in the list. */
  function Place(n: nat, i: nat, j: nat): nat
    requires i <= j < n
  {
    Offset(n, i) + (j - i)
  }

  lemma {:induction false} OffsetTotal(n: nat, i: nat)
    requires i <= n
    ensures 2 * Offset(n, i) == i * (2 * n - i + 1)
  {
    if i > 0 {
      OffsetTotal(n, i - 1);
    }
  }

  /** The slice from `t` to `j` sits at its place: the slices come ordered
      by start and then by end, each once. */
  lemma {:induction false} StartsIndex<T>(a: seq<T>, i: nat)
    requires i <= |a|
    ensures |Starts(a, i)| == Offset(|a|, i)
    ensures forall t, j :: 0 <= t < i && t <= j < |a| ==>
      Place(|a|, t, j) < |Starts(a, i)| && Starts(a, i)[Place(|a|, t, j)] == Slice(a, t, j)
  {
    if i > 0 {
      StartsIndex(a, i - 1);
      forall t, j | 0 <= t < i && t <= j < |a|
        ensures Place(|a|, t, j) < |Starts(a, i)| && Starts(a, i)[Place(|a|, t, j)] == Slice(a, t, j)
      {
        if t == i - 1 {
          assert Ends(a, t)[j - t] == a[t..t + (j - t) + 1] == Slice(a, t, j);
        }
      }
    }
  }

  /** Every slice in the list is a non-empty contiguous run of `a`. */
  lemma {:induction false} StartsMembers<T>(a: seq<T>, i: nat)
    requires i <= |a|
    ensures forall s :: s in Starts(a, i) ==> exists t, j :: 0 <= t < i && t <= j < |a| && s == Slice(a, t, j)
  {
    if i > 0 {
      StartsMembers(a, i - 1);
      var p := i - 1;
      forall s | s in Ends(a, p)
        ensures exists t, j :: 0 <= t < i && t <= j < |a| && s == Slice(a, t, j)
      {
        var k :| 0 <= k < |a| - p && s == Ends(a, p)[k];
        assert s == Slice(a, p, p + k);
      }
    }
  }

  /** The properties of `getAllContigSubsetsList`: n(n+1)/2 slices, each
      slice from `i` to `j` at its place in start-then-end order, and
      nothing else, so every one non-empty. */
  lemma ContigSubsetsSpec<T>(a: seq<T>)
    ensures 2 * |ContigSubsets(a)| == |a| * (|a| + 1)
    ensures forall i, j :: 0 <= i <= j < |a| ==>
      Place(|a|, i, j) < |ContigSubsets(a)| && ContigSubsets(a)[Place(|a|, i, j)] == Slice(a, i, j)
    ensures forall s :: s in ContigSubsets(a) ==> exists i, j :: 0 <= i <= j < |a| && s == Slice(a, i, j)
    ensures forall s :: s in ContigSubsets(a) ==> s != []
  {
    StartsIndex(a, |a|);
    OffsetTotal(|a|, |a|);
    StartsMembers(a, |a|);
  }

  lemma ContigSubsetsExample()
    ensures ContigSubsets(['a', 'b', 'c']) == [['a'], ['a', 'b'], ['a', 'b', 'c'], ['b'], ['b', 'c'], ['c']]
  {
    var a := ['a', 'b', 'c'];
    assert a[0..1] == ['a'] && a[0..2] == ['a', 'b'] && a[0..3] == a;
    assert a[1..2] == ['b'] && a[1..3] == ['b', 'c'] && a[2..3] == ['c'];
    assert Ends(a, 0) == [a[0..1], a[0..2], a[0..3]];
    assert Ends(a, 1) == [a[1..2], a[1..3]];
    assert Ends(a, 2) == [a[2..3]];
    assert Starts(a, 1) == Ends(a, 0);
    assert Starts(a, 2) == Ends(a, 0) + Ends(a, 1);
    assert Starts(a, 3) == Ends(a, 0) + Ends(a, 1) + Ends(a, 2);
  }

  // ---------------------------------------------------------------------
  // getAllContigSubsetsDict
  // ---------------------------------------------------------------------

  /** A run of keys with their values, in the run's order. */
  function WithValues<K, V>(ks: seq<K>, m: map<K, V>): (r: seq<(K, V)>)
    requires InMap(ks, m)
    ensures |r| == |ks|
    ensures forall i :: 0 <= i < |ks| ==> r[i] == (ks[i], m[ks[i]])
  {
    seq(|ks|, i requires 0 <= i < |ks| => (ks[i], m[ks[i]]))
  }

  /** Every key of the run has a value in `m`. */
  predicate InMap<K, V>(ks: seq<K>, m: map<K, V>)
  {
    forall i :: 0 <= i < |ks| ==> ks[i] in m
  }

  /** The runs longer than one key, each with its values, in order. */
  function LongRuns<K, V>(ss: seq<seq<K>>, m: map<K, V>): seq<seq<(K, V)>>
    requires forall k :: 0 <= k < |ss| ==> InMap(ss[k], m)
  {
    if ss == [] then []
    else
      var last := ss[|ss| - 1];
      LongRuns(ss[..|ss| - 1], m) + (if |last| > 1 then [WithValues(last, m)] else [])
  }

  /** Every run kept has at least two entries and is one of the runs with
      its values. */
  lemma {:induction false} LongRunsMembers<K, V>(ss: seq<seq<K>>, m: map<K, V>)
    requires forall k :: 0 <= k < |ss| ==> InMap(ss[k], m)
    ensures forall r :: r in LongRuns(ss, m) ==> |r| > 1 && exists k :: 0 <= k < |ss| && InMap(ss[k], m) && r == WithValues(ss[k], m)
  {
    if ss != [] {
      var n := |ss| - 1;
      assert forall k :: 0 <= k < n ==> ss[..n][k] == ss[k];
      LongRunsMembers(ss[..n], m);
    }
  }

  /** The slices of a key list whose keys all have values have values. */
  lemma SubsetsInMap<K, V>(keys: seq<K>, m: map<K, V>)
    requires InMap(keys, m)
    ensures forall k :: 0 <= k < |ContigSubsets(keys)| ==> InMap(ContigSubsets(keys)[k], m)
  {
    ContigSubsetsSpec(keys);
    forall k | 0 <= k < |ContigSubsets(keys)|
      ensures InMap(ContigSubsets(keys)[k], m)
    {
      var s := ContigSubsets(keys)[k];
      assert s in ContigSubsets(keys);
      var i, j :| 0 <= i <= j < |keys| && s == Slice(keys, i, j);
      assert forall t :: 0 <= t < |s| ==> s[t] == keys[i + t];
    }
  }

  /** `getAllContigSubsetsDict(dateValuesDict)`: the table is given as its
      keys in order and its mapping. Every contiguous run of keys longer
      than one becomes a table of those keys and their values. */
  method ContigSubsetsDict<K, V>(keys: seq<K>, m: map<K, V>) returns (total: seq<seq<(K, V)>>)
    requires InMap(keys, m)
    ensures SubsetsInMapHold(keys, m) && total == LongRuns(ContigSubsets(keys), m)
  {
    var subsets := ContigSubsets(keys);
    SubsetsInMap(keys, m);
    total := [];
    var i := 0;
    while i < |subsets|
      invariant 0 <= i <= |subsets|
      invariant total == LongRuns(subsets[..i], m)
    {
      var cur := subsets[i];
      assert subsets[..i + 1][..i] == subsets[..i];
      if |cur| > 1 {
        var dict: seq<(K, V)> := [];
        var j := 0;
        while j < |cur|
          invariant 0 <= j <= |cur|
          invariant |dict| == j
          invariant forall t :: 0 <= t < j ==> dict[t] == (cur[t], m[cur[t]])
        {
          dict := dict + [(cur[j], m[cur[j]])];
          j := j + 1;
        }
        assert dict == WithValues(cur, m);
        total := total + [dict];
      }
      i := i + 1;
    }
    assert subsets[..i] == subsets;
  }

  /** The keys of every slice have values, so `LongRuns` applies. */
  predicate SubsetsInMapHold<K, V>(keys: seq<K>, m: map<K, V>)
  {
    forall k :: 0 <= k < |ContigSubsets(keys)| ==> InMap(ContigSubsets(keys)[k], m)
  }

  /** The runs of `getAllContigSubsetsDict`: each has two or more entries,
      its keys consecutive in the table's key order and with their values. */
  lemma ContigSubsetsDictRuns<K, V>(keys: seq<K>, m: map<K, V>)
    requires InMap(keys, m)
    ensures SubsetsInMapHold(keys, m)
    ensures forall r :: r in LongRuns(ContigSubsets(keys), m) ==>
      |r| > 1 && exists i, j :: 0 <= i <= j < |keys| && InMap(Slice(keys, i, j), m) && r == WithValues(Slice(keys, i, j), m)
  {
    ContigSubsetsSpec(keys);
    SubsetsInMap(keys, m);
    LongRunsMembers(ContigSubsets(keys), m);
    forall r | r in LongRuns(ContigSubsets(keys), m)
      ensures exists i, j :: 0 <= i <= j < |keys| && InMap(Slice(keys, i, j), m) && r == WithValues(Slice(keys, i, j), m)
    {
      var k :| 0 <= k < |ContigSubsets(keys)| && InMap(ContigSubsets(keys)[k], m) && r == WithValues(ContigSubsets(keys)[k], m);
      var s := ContigSubsets(keys)[k];
      assert s in ContigSubsets(keys);
      var i, j :| 0 <= i <= j < |keys| && s == Slice(keys, i, j);
    }
  }
}
