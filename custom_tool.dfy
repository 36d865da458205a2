/**
 * The dataset cleaner `DataCleaningAgent.clean_dataset`: drop duplicate rows, fill the
 * missing cells of every numeric column with that column's mean, fill the missing cells
 * of every object column with "Unknown", and log what was changed.
 */
module CustomTool {
  import opened Wrappers
  import opened DataFrame

  /** The cleaning log: a change description mapped to a count. */
  type CleaningLog = map<string, int>

  const RemovedDuplicates: string := "Removed Duplicates"
  const Unknown: string := "Unknown"

  /** The two imputation loops of the cleaner. */
  datatype Pass = NumericPass | CategoricalPass {

    /** The log key recording how many cells of a column were filled. */
    function Key(column: string): (k: string)
      ensures |k| > |column| && k[|k| - |column|..] == column
      ensures k != RemovedDuplicates
    {
      if NumericPass? then "Filled Missing Values (Numeric): " + column
      else "Filled Missing Values (Categorical): " + column
    }

    /**
     * The argument given to `fillna`: the column mean, or "Unknown". A numeric column
     * without any number has a NaN mean, and filling with NaN leaves the cells missing.
     */
    function FillValue(values: seq<Value>): (v: Value)
      ensures CategoricalPass? ==> v == Str(Unknown)
      ensures NumericPass? ==> !v.Str? && (v == Null <==> NumCount(values) == 0)
      ensures NumericPass? && v.Num? ==> v.x * (NumCount(values) as real) == NumSum(values)
    {
      if CategoricalPass? then Str(Unknown)
      else match Mean(values)
        case Some(m) => Num(m)
        case None => Null
    }
  }

  /** The table and the log part-way through cleaning. */
  datatype Progress = Progress(rows: seq<Row>, log: CleaningLog)

  /** What `clean_dataset` returns: the cleaned table and the cleaning log. */
  datatype CleanResult = CleanResult(cleanedDataset: Dataset, cleaningLog: CleaningLog)

  /** Every entry of idx is a column position below width. */
  predicate ValidPositions(idx: seq<nat>, width: nat)
  {
    forall t :: 0 <= t < |idx| ==> idx[t] < width
  }

  /** One iteration of an imputation loop, for the column at position j. */
  function ImputeColumn(pass: Pass, columns: seq<Column>, j: nat, st: Progress): (r: Progress)
    requires j < |columns| && Rectangular(st.rows, |columns|)
    ensures Rectangular(r.rows, |columns|) && |r.rows| == |st.rows|
  {
    var values := ColumnValues(st.rows, j);
    var missingCount := NullCount(values);
    if missingCount > 0 then
      Progress(FillNa(st.rows, j, pass.FillValue(values)), st.log[pass.Key(columns[j].name) := missingCount])
    else
      st
  }

  /** An imputation loop over the column positions idx, in order. */
  function ImputePass(pass: Pass, columns: seq<Column>, idx: seq<nat>, st: Progress): (r: Progress)
    requires ValidPositions(idx, |columns|) && Rectangular(st.rows, |columns|)
    ensures Rectangular(r.rows, |columns|) && |r.rows| == |st.rows|
    decreases |idx|
  {
    if |idx| == 0 then st
    else ImputeColumn(pass, columns, idx[|idx| - 1], ImputePass(pass, columns, idx[..|idx| - 1], st))
  }

  /** The table right after `drop_duplicates`, with the log holding only the duplicate count. */
  function Deduplicated(d: Dataset): (st: Progress)
    requires WellFormed(d)
    ensures Rectangular(st.rows, |d.columns|)
  {
    var deduped := DropDuplicates(d);
    Progress(deduped.rows, map[RemovedDuplicates := |d.rows| - |deduped.rows|])
  }

  /** The table and the log after the numeric imputation loop. */
  function AfterNumeric(d: Dataset): (st: Progress)
    requires WellFormed(d)
    ensures Rectangular(st.rows, |d.columns|) && |st.rows| == |DropDuplicates(d).rows|
  {
    ImputePass(NumericPass, d.columns, SelectDtypes(d.columns, Numeric), Deduplicated(d))
  }

  /** The table and the log after the categorical imputation loop. */
  function AfterCategorical(d: Dataset): (st: Progress)
    requires WellFormed(d)
    ensures Rectangular(st.rows, |d.columns|) && |st.rows| == |DropDuplicates(d).rows|
  {
    ImputePass(CategoricalPass, d.columns, SelectDtypes(d.columns, Object), AfterNumeric(d))
  }

  /** The result of `clean_dataset(d)`. */
  function Clean(d: Dataset): (r: CleanResult)
    requires WellFormed(d)
    ensures r.cleanedDataset.columns == d.columns
    ensures r.cleanedDataset.index == DropDuplicates(d).index
    ensures |r.cleanedDataset.rows| == |DropDuplicates(d).rows|
    ensures Rectangular(r.cleanedDataset.rows, |d.columns|)
  {
    var cleaned := AfterCategorical(d);
    CleanResult(Dataset(d.columns, DropDuplicates(d).index, cleaned.rows), cleaned.log)
  }

  /** Extending the loop by the next position runs one more iteration. */
  lemma ImputePassStep(pass: Pass, columns: seq<Column>, idx: seq<nat>, t: nat, st: Progress)
    requires ValidPositions(idx, |columns|) && Rectangular(st.rows, |columns|) && t < |idx|
    ensures ImputePass(pass, columns, idx[..t + 1], st) == ImputeColumn(pass, columns, idx[t], ImputePass(pass, columns, idx[..t], st))
  {
    assert idx[..t + 1][..t] == idx[..t];
  }

  // ---------------------------------------------------------------------------
  // Log keys

  /** Different column names give different log keys. */
  lemma KeyInjective(pass: Pass, a: string, b: string)
    requires pass.Key(a) == pass.Key(b)
    ensures a == b
  {
    var prefix := pass.Key([]);
    assert pass.Key(a) == prefix + a && pass.Key(b) == prefix + b;
    assert a == (prefix + a)[|prefix|..];
  }

  /** Within a table with distinct column names, different columns have different log keys. */
  lemma KeysOfColumns(pass: Pass, columns: seq<Column>)
    requires DistinctNames(columns)
    ensures forall j, k :: 0 <= j < |columns| && 0 <= k < |columns| && pass.Key(columns[j].name) == pass.Key(columns[k].name) ==> j == k
  {
    forall j, k | 0 <= j < |columns| && 0 <= k < |columns| && pass.Key(columns[j].name) == pass.Key(columns[k].name)
      ensures j == k
    {
      KeyInjective(pass, columns[j].name, columns[k].name);
    }
  }

  /** The duplicate key, the numeric keys and the categorical keys never coincide. */
  lemma KeysDisjoint(a: string, b: string)
    ensures NumericPass.Key(a) != CategoricalPass.Key(b)
    ensures RemovedDuplicates != NumericPass.Key(a) && RemovedDuplicates != CategoricalPass.Key(b)
  {
    assert NumericPass.Key(a)[0] == 'F' && CategoricalPass.Key(b)[0] == 'F';
    assert NumericPass.Key(a)[23] == 'N' && CategoricalPass.Key(b)[23] == 'C';
  }

  /** The log holds no key of this pass for any column yet. */
  predicate FreshKeys(pass: Pass, columns: seq<Column>, log: CleaningLog)
  {
    forall j :: 0 <= j < |columns| ==> pass.Key(columns[j].name) !in log
  }

  // ---------------------------------------------------------------------------
  // What one imputation pass does

  /**
   * After a pass over distinct positions idx, a cell is the pass's fill value (computed
   * from the column as it was before the pass) exactly when its column was selected and
   * the cell was missing; every other cell is unchanged.
   */
  lemma ImputePassCells(pass: Pass, columns: seq<Column>, idx: seq<nat>, st: Progress)
    requires ValidPositions(idx, |columns|) && Rectangular(st.rows, |columns|) && Distinct(idx)
    ensures var r := ImputePass(pass, columns, idx, st);
      forall i, j :: 0 <= i < |r.rows| && 0 <= j < |columns| ==>
        r.rows[i][j] == if j in idx && st.rows[i][j] == Null then pass.FillValue(ColumnValues(st.rows, j)) else st.rows[i][j]
  {
    forall i, j | 0 <= i < |st.rows| && 0 <= j < |columns|
      ensures ImputePass(pass, columns, idx, st).rows[i][j] ==
        if j in idx && st.rows[i][j] == Null then pass.FillValue(ColumnValues(st.rows, j)) else st.rows[i][j]
    {
      PassCell(pass, columns, idx, st, i, j);
    }
  }

  /** One cell of ImputePassCells, by induction on the loop. */
  lemma {:induction false} PassCell(pass: Pass, columns: seq<Column>, idx: seq<nat>, st: Progress, i: nat, j: nat)
    requires ValidPositions(idx, |columns|) && Rectangular(st.rows, |columns|) && Distinct(idx)
    requires i < |st.rows| && j < |columns|
    ensures ImputePass(pass, columns, idx, st).rows[i][j] ==
      if j in idx && st.rows[i][j] == Null then pass.FillValue(ColumnValues(st.rows, j)) else st.rows[i][j]
    decreases |idx|
  {
    if |idx| > 0 {
      var init := idx[..|idx| - 1];
      var last := idx[|idx| - 1];
      var prev := ImputePass(pass, columns, init, st);
      assert last !in init;
      PassCell(pass, columns, init, st, i, j);
      forall i' | 0 <= i' < |st.rows| ensures prev.rows[i'][last] == st.rows[i'][last] {
        PassCell(pass, columns, init, st, i', last);
      }
      assert ColumnValues(prev.rows, last) == ColumnValues(st.rows, last);
      ImputeColumnCell(pass, columns, last, prev, i, j);
      assert j in idx <==> j in init || j == last;
    }
  }

  /** One cell after one iteration of an imputation loop. */
  lemma ImputeColumnCell(pass: Pass, columns: seq<Column>, c: nat, st: Progress, i: nat, j: nat)
    requires c < |columns| && Rectangular(st.rows, |columns|)
    requires i < |st.rows| && j < |columns|
    ensures ImputeColumn(pass, columns, c, st).rows[i][j] ==
      if j == c && st.rows[i][j] == Null then pass.FillValue(ColumnValues(st.rows, c)) else st.rows[i][j]
  {
    var values := ColumnValues(st.rows, c);
    NullCountPositive(values);
    assert values[i] == st.rows[i][c];
  }

  /**
   * A pass over distinct positions idx logs, for each selected column, the number of its
   * missing cells exactly when that number is positive; it logs nothing for any other
   * column and keeps the entries already present.
   */
  lemma ImputePassLog(pass: Pass, columns: seq<Column>, idx: seq<nat>, st: Progress)
    requires ValidPositions(idx, |columns|) && Rectangular(st.rows, |columns|) && Distinct(idx)
    requires DistinctNames(columns) && FreshKeys(pass, columns, st.log)
    ensures var r := ImputePass(pass, columns, idx, st);
      && (forall j :: 0 <= j < |columns| && j in idx ==>
            var n := NullCount(ColumnValues(st.rows, j));
            (pass.Key(columns[j].name) in r.log <==> n > 0) && (n > 0 ==> r.log[pass.Key(columns[j].name)] == n))
      && (forall j :: 0 <= j < |columns| && j !in idx ==> pass.Key(columns[j].name) !in r.log)
      && (forall k :: k in st.log ==> k in r.log && r.log[k] == st.log[k])
      && (forall k :: k in r.log ==> k in st.log || exists j :: 0 <= j < |columns| && k == pass.Key(columns[j].name))
  {
    ImputePassLogFrame(pass, columns, idx, st);
    ImputePassLogCounts(pass, columns, idx, st);
  }

  /** A pass leaves the column at an unselected position as it was. */
  lemma PassColumnUnselected(pass: Pass, columns: seq<Column>, idx: seq<nat>, st: Progress, c: nat)
    requires ValidPositions(idx, |columns|) && Rectangular(st.rows, |columns|) && Distinct(idx)
    requires c < |columns| && c !in idx
    ensures ColumnValues(ImputePass(pass, columns, idx, st).rows, c) == ColumnValues(st.rows, c)
  {
    forall i | 0 <= i < |st.rows| ensures ImputePass(pass, columns, idx, st).rows[i][c] == st.rows[i][c] {
      PassCell(pass, columns, idx, st, i, c);
    }
  }

  /** One loop iteration logs the column's missing count under its key when it is positive, and nothing else. */
  lemma ImputeColumnLog(pass: Pass, columns: seq<Column>, c: nat, st: Progress)
    requires c < |columns| && Rectangular(st.rows, |columns|)
    ensures var n := NullCount(ColumnValues(st.rows, c));
      ImputeColumn(pass, columns, c, st).log == if n > 0 then st.log[pass.Key(columns[c].name) := n] else st.log
  {
  }

  /** A pass adds no key for an unselected column, keeps the entries present and adds only column keys. */
  lemma {:induction false} ImputePassLogFrame(pass: Pass, columns: seq<Column>, idx: seq<nat>, st: Progress)
    requires ValidPositions(idx, |columns|) && Rectangular(st.rows, |columns|) && Distinct(idx)
    requires DistinctNames(columns) && FreshKeys(pass, columns, st.log)
    ensures var r := ImputePass(pass, columns, idx, st);
      && (forall j :: 0 <= j < |columns| && j !in idx ==> pass.Key(columns[j].name) !in r.log)
      && (forall k :: k in st.log ==> k in r.log && r.log[k] == st.log[k])
      && (forall k :: k in r.log ==> k in st.log || exists j :: 0 <= j < |columns| && k == pass.Key(columns[j].name))
    decreases |idx|
  {
    if |idx| > 0 {
      var init := idx[..|idx| - 1];
      var last := idx[|idx| - 1];
      var prev := ImputePass(pass, columns, init, st);
      var r := ImputePass(pass, columns, idx, st);
      ImputePassLogFrame(pass, columns, init, st);
      KeysOfColumns(pass, columns);
      assert last !in init;
      assert r == ImputeColumn(pass, columns, last, prev);
      var key := pass.Key(columns[last].name);
      assert key !in prev.log;
      assert r.log == prev.log || r.log == prev.log[key := r.log[key]];
      forall j | 0 <= j < |columns| && j !in idx ensures pass.Key(columns[j].name) !in r.log {
        assert j !in init && j != last;
      }
      forall k | k in r.log ensures k in st.log || exists j :: 0 <= j < |columns| && k == pass.Key(columns[j].name) {
        if k != key {
          assert k in prev.log;
        }
      }
    }
  }

  /** A pass logs each selected column's missing count, exactly when it is positive. */
  lemma {:induction false} ImputePassLogCounts(pass: Pass, columns: seq<Column>, idx: seq<nat>, st: Progress)
    requires ValidPositions(idx, |columns|) && Rectangular(st.rows, |columns|) && Distinct(idx)
    requires DistinctNames(columns) && FreshKeys(pass, columns, st.log)
    ensures var r := ImputePass(pass, columns, idx, st);
      forall j :: 0 <= j < |columns| && j in idx ==>
        var n := NullCount(ColumnValues(st.rows, j));
        (pass.Key(columns[j].name) in r.log <==> n > 0) && (n > 0 ==> r.log[pass.Key(columns[j].name)] == n)
    decreases |idx|
  {
    if |idx| > 0 {
      var init := idx[..|idx| - 1];
      var last := idx[|idx| - 1];
      var prev := ImputePass(pass, columns, init, st);
      var r := ImputePass(pass, columns, idx, st);
      ImputePassLogCounts(pass, columns, init, st);
      ImputePassLogFrame(pass, columns, init, st);
      assert last !in init;
      var key := pass.Key(columns[last].name);
      assert key !in prev.log;
      PassColumnUnselected(pass, columns, init, st, last);
      ImputeColumnLog(pass, columns, last, prev);
      var n := NullCount(ColumnValues(st.rows, last));
      assert r.log == if n > 0 then prev.log[key := n] else prev.log;
      forall j | 0 <= j < |columns| && j in idx
        ensures var n := NullCount(ColumnValues(st.rows, j));
          (pass.Key(columns[j].name) in r.log <==> n > 0) && (n > 0 ==> r.log[pass.Key(columns[j].name)] == n)
      {
        if j != last {
          assert j in init;
          DistinctKeys(pass, columns, j, last);
        }
      }
    }
  }

  /** Two different columns of a table with distinct names have different log keys. */
  lemma DistinctKeys(pass: Pass, columns: seq<Column>, j: nat, k: nat)
    requires DistinctNames(columns) && j < |columns| && k < |columns| && j != k
    ensures pass.Key(columns[j].name) != pass.Key(columns[k].name)
  {
    if pass.Key(columns[j].name) == pass.Key(columns[k].name) {
      KeyInjective(pass, columns[j].name, columns[k].name);
    }
  }

  // ---------------------------------------------------------------------------
  // What `clean_dataset` promises

  /** k is the key under which the imputation loop for column j logs. */
  predicate ImputationKey(columns: seq<Column>, j: nat, k: string)
    requires j < |columns|
  {
    || (columns[j].kind == Numeric && k == NumericPass.Key(columns[j].name))
    || (columns[j].kind == Object && k == CategoricalPass.Key(columns[j].name))
  }

  /** Strictly increasing positions are pairwise different. */
  lemma IncreasingIsDistinct(idx: seq<nat>)
    requires forall s, t :: 0 <= s < t < |idx| ==> idx[s] < idx[t]
    ensures Distinct(idx)
  {
  }

  /**
   * Cell by cell, the cleaned table is the deduplicated table with every missing cell of a
   * numeric column replaced by the mean of that column's numbers (left missing when the
   * column has no number), every missing cell of an object column replaced by "Unknown",
   * and every other cell unchanged.
   */
  lemma CleanCells(d: Dataset, i: nat, j: nat)
    requires WellFormed(d) && i < |DropDuplicates(d).rows| && j < |d.columns|
    ensures var before := DropDuplicates(d).rows[i][j];
      var values := ColumnValues(DropDuplicates(d).rows, j);
      var after := Clean(d).cleanedDataset.rows[i][j];
      && (before != Null ==> after == before)
      && (d.columns[j].kind == Other ==> after == before)
      && (d.columns[j].kind == Numeric && before == Null ==>
            after == if NumCount(values) > 0 then Num(NumSum(values) / NumCount(values) as real) else Null)
      && (d.columns[j].kind == Object && before == Null ==> after == Str(Unknown))
  {
    var values := ColumnValues(DropDuplicates(d).rows, j);
    NumericStageCells(d, i, j);
    CategoricalStageCells(d, i, j);
    if NumCount(values) > 0 {
      assert NumericPass.FillValue(values) == Num(NumSum(values) / NumCount(values) as real);
    }
  }

  /** The numeric loop fills exactly the missing cells of numeric columns. */
  lemma NumericStageCells(d: Dataset, i: nat, j: nat)
    requires WellFormed(d) && i < |DropDuplicates(d).rows| && j < |d.columns|
    ensures var before := DropDuplicates(d).rows[i][j];
      AfterNumeric(d).rows[i][j] ==
        if d.columns[j].kind == Numeric && before == Null
        then NumericPass.FillValue(ColumnValues(DropDuplicates(d).rows, j)) else before
  {
    var numCols := SelectDtypes(d.columns, Numeric);
    SelectedColumns(d.columns, Numeric, j);
    PassCell(NumericPass, d.columns, numCols, Deduplicated(d), i, j);
  }

  /** The categorical loop fills exactly the missing cells of object columns, with "Unknown". */
  lemma CategoricalStageCells(d: Dataset, i: nat, j: nat)
    requires WellFormed(d) && i < |DropDuplicates(d).rows| && j < |d.columns|
    ensures var before := AfterNumeric(d).rows[i][j];
      AfterCategorical(d).rows[i][j] == if d.columns[j].kind == Object && before == Null then Str(Unknown) else before
  {
    var catCols := SelectDtypes(d.columns, Object);
    SelectedColumns(d.columns, Object, j);
    PassCell(CategoricalPass, d.columns, catCols, AfterNumeric(d), i, j);
  }

  /** The positions select_dtypes returns are distinct, and column j is among them exactly when it has the kind. */
  lemma SelectedColumns(columns: seq<Column>, kind: Kind, j: nat)
    requires j < |columns|
    ensures Distinct(SelectDtypes(columns, kind))
    ensures j in SelectDtypes(columns, kind) <==> columns[j].kind == kind
  {
  }

  /** The log records under key how many cells of values are missing, exactly when some are. */
  predicate LogsCount(log: CleaningLog, key: string, values: seq<Value>)
  {
    var n := NullCount(values);
    (key in log <==> n > 0) && (n > 0 ==> log[key] == n)
  }

  /**
   * The cleaning log holds the number of removed duplicates under "Removed Duplicates",
   * and, for each numeric and each object column with missing cells after deduplication,
   * their number under that column's key; it holds nothing else.
   */
  lemma CleanLog(d: Dataset)
    requires WellFormed(d)
    ensures var log := Clean(d).cleaningLog;
      var rows := DropDuplicates(d).rows;
      && RemovedDuplicates in log && log[RemovedDuplicates] == |d.rows| - |rows| >= 0
      && (forall j :: 0 <= j < |d.columns| && d.columns[j].kind == Numeric ==>
            LogsCount(log, NumericPass.Key(d.columns[j].name), ColumnValues(rows, j)))
      && (forall j :: 0 <= j < |d.columns| && d.columns[j].kind == Object ==>
            LogsCount(log, CategoricalPass.Key(d.columns[j].name), ColumnValues(rows, j)))
      && (forall k :: k in log ==> k == RemovedDuplicates || exists j :: 0 <= j < |d.columns| && ImputationKey(d.columns, j, k))
  {
    var log := Clean(d).cleaningLog;
    var mid := AfterNumeric(d).log;
    var rows := DropDuplicates(d).rows;
    NumericStageLog(d);
    CategoricalStageLog(d);
    forall j | 0 <= j < |d.columns| && d.columns[j].kind == Numeric
      ensures LogsCount(log, NumericPass.Key(d.columns[j].name), ColumnValues(rows, j))
    {
      var key := NumericPass.Key(d.columns[j].name);
      assert LogsCount(mid, key, ColumnValues(rows, j));
      if key in log && key !in mid {
        var j' :| 0 <= j' < |d.columns| && d.columns[j'].kind == Object && key == CategoricalPass.Key(d.columns[j'].name);
        KeysDisjoint(d.columns[j].name, d.columns[j'].name);
      }
    }
    forall k | k in log ensures k == RemovedDuplicates || exists j :: 0 <= j < |d.columns| && ImputationKey(d.columns, j, k) {
      if k in mid {
        if k != RemovedDuplicates {
          var j :| 0 <= j < |d.columns| && d.columns[j].kind == Numeric && k == NumericPass.Key(d.columns[j].name);
          assert ImputationKey(d.columns, j, k);
        }
      } else {
        var j :| 0 <= j < |d.columns| && d.columns[j].kind == Object && k == CategoricalPass.Key(d.columns[j].name);
        assert ImputationKey(d.columns, j, k);
      }
    }
  }

  /** The log entry of one column, as CleanLog states it. */
  lemma CleanLogColumn(d: Dataset, j: nat)
    requires WellFormed(d) && j < |d.columns|
    ensures var values := ColumnValues(DropDuplicates(d).rows, j);
      && (d.columns[j].kind == Numeric ==> LogsCount(Clean(d).cleaningLog, NumericPass.Key(d.columns[j].name), values))
      && (d.columns[j].kind == Object ==> LogsCount(Clean(d).cleaningLog, CategoricalPass.Key(d.columns[j].name), values))
  {
    CleanLog(d);
  }

  /** The keys of the log, as CleanLog states them. */
  lemma CleanLogKeys(d: Dataset)
    requires WellFormed(d)
    ensures forall k :: k in Clean(d).cleaningLog ==>
      k == RemovedDuplicates || exists j :: 0 <= j < |d.columns| && ImputationKey(d.columns, j, k)
  {
    CleanLog(d);
  }

  /** The log after the numeric loop: the duplicate count and one entry per numeric column with missing cells. */
  lemma NumericStageLog(d: Dataset)
    requires WellFormed(d)
    ensures var log := AfterNumeric(d).log;
      var rows := DropDuplicates(d).rows;
      && RemovedDuplicates in log && log[RemovedDuplicates] == |d.rows| - |rows|
      && (forall j :: 0 <= j < |d.columns| && d.columns[j].kind == Numeric ==>
            LogsCount(log, NumericPass.Key(d.columns[j].name), ColumnValues(rows, j)))
      && (forall k :: k in log ==>
            (k == RemovedDuplicates ||
             exists j :: 0 <= j < |d.columns| && d.columns[j].kind == Numeric && k == NumericPass.Key(d.columns[j].name)))
  {
    var numCols := SelectDtypes(d.columns, Numeric);
    var st0 := Deduplicated(d);
    var log := AfterNumeric(d).log;
    assert AfterNumeric(d) == ImputePass(NumericPass, d.columns, numCols, st0);
    forall j | 0 <= j < |d.columns| ensures NumericPass.Key(d.columns[j].name) !in st0.log {
      KeysDisjoint(d.columns[j].name, d.columns[j].name);
    }
    IncreasingIsDistinct(numCols);
    ImputePassLog(NumericPass, d.columns, numCols, st0);
    forall j | 0 <= j < |d.columns| && d.columns[j].kind == Numeric
      ensures LogsCount(log, NumericPass.Key(d.columns[j].name), ColumnValues(st0.rows, j))
    {
      SelectedColumns(d.columns, Numeric, j);
    }
    forall k | k in log
      ensures k == RemovedDuplicates ||
        exists j :: 0 <= j < |d.columns| && d.columns[j].kind == Numeric && k == NumericPass.Key(d.columns[j].name)
    {
      if k !in st0.log {
        var j :| 0 <= j < |d.columns| && k == NumericPass.Key(d.columns[j].name);
        SelectedColumns(d.columns, Numeric, j);
      }
    }
  }

  /**
   * The categorical loop keeps every entry of the numeric loop's log and adds one entry
   * per object column with missing cells after deduplication.
   */
  lemma CategoricalStageLog(d: Dataset)
    requires WellFormed(d)
    ensures var before := AfterNumeric(d).log;
      var log := AfterCategorical(d).log;
      var rows := DropDuplicates(d).rows;
      && (forall k :: k in before ==> k in log && log[k] == before[k])
      && (forall j :: 0 <= j < |d.columns| && d.columns[j].kind == Object ==>
            LogsCount(log, CategoricalPass.Key(d.columns[j].name), ColumnValues(rows, j)))
      && (forall k :: k in log ==>
            (k in before ||
             exists j :: 0 <= j < |d.columns| && d.columns[j].kind == Object && k == CategoricalPass.Key(d.columns[j].name)))
  {
    var catCols := SelectDtypes(d.columns, Object);
    var mid := AfterNumeric(d);
    var log := AfterCategorical(d).log;
    var rows := DropDuplicates(d).rows;
    assert AfterCategorical(d) == ImputePass(CategoricalPass, d.columns, catCols, mid);
    CategoricalKeysFresh(d);
    IncreasingIsDistinct(catCols);
    ImputePassLog(CategoricalPass, d.columns, catCols, mid);
    forall j | 0 <= j < |d.columns| && d.columns[j].kind == Object
      ensures LogsCount(log, CategoricalPass.Key(d.columns[j].name), ColumnValues(rows, j))
    {
      SelectedColumns(d.columns, Object, j);
      NonNumericColumnUntouched(d, j);
    }
    forall k | k in log
      ensures k in mid.log ||
        exists j :: 0 <= j < |d.columns| && d.columns[j].kind == Object && k == CategoricalPass.Key(d.columns[j].name)
    {
      if k !in mid.log {
        var j :| 0 <= j < |d.columns| && k == CategoricalPass.Key(d.columns[j].name);
        SelectedColumns(d.columns, Object, j);
      }
    }
  }

  /** The cleaned table is again a well-formed table: same columns, a label per row, cells that fit their kind. */
  lemma CleanWellFormed(d: Dataset)
    requires WellFormed(d)
    ensures WellFormed(Clean(d).cleanedDataset)
  {
    var dd := DropDuplicates(d);
    var cleaned := Clean(d).cleanedDataset;
    forall i, j | 0 <= i < |cleaned.rows| && 0 <= j < |d.columns| ensures CellFits(d.columns[j].kind, cleaned.rows[i][j]) {
      var p := FirstOccurrences(d.rows)[i];
      assert dd.rows[i] == d.rows[p];
      CleanCells(d, i, j);
    }
  }

  /**
   * A numeric column that holds no number after deduplication has no mean: its missing
   * cells stay missing, yet the log still reports all of them as filled.
   */
  lemma CleanAllMissingNumeric(d: Dataset, j: nat)
    requires WellFormed(d) && j < |d.columns| && d.columns[j].kind == Numeric
    requires |DropDuplicates(d).rows| > 0
    requires forall i :: 0 <= i < |DropDuplicates(d).rows| ==> DropDuplicates(d).rows[i][j] == Null
    ensures forall i :: 0 <= i < |Clean(d).cleanedDataset.rows| ==> Clean(d).cleanedDataset.rows[i][j] == Null
    ensures var key := NumericPass.Key(d.columns[j].name);
      key in Clean(d).cleaningLog && Clean(d).cleaningLog[key] == |DropDuplicates(d).rows|
  {
    var rows := DropDuplicates(d).rows;
    var values := ColumnValues(rows, j);
    AllNullCounts(values);
    forall i | 0 <= i < |rows| ensures Clean(d).cleanedDataset.rows[i][j] == Null {
      CleanCells(d, i, j);
    }
    CleanLog(d);
    assert LogsCount(Clean(d).cleaningLog, NumericPass.Key(d.columns[j].name), values);
  }

  /**
   * Imputation never leaves the observed range: when every number of a numeric column
   * lies in [lo, hi] after deduplication, so does every number of that column after cleaning.
   */
  lemma CleanFillWithinRange(d: Dataset, j: nat, lo: real, hi: real)
    requires WellFormed(d) && j < |d.columns| && d.columns[j].kind == Numeric
    requires forall i :: 0 <= i < |DropDuplicates(d).rows| && DropDuplicates(d).rows[i][j].Num? ==>
      lo <= DropDuplicates(d).rows[i][j].x <= hi
    ensures forall i :: 0 <= i < |Clean(d).cleanedDataset.rows| && Clean(d).cleanedDataset.rows[i][j].Num? ==>
      lo <= Clean(d).cleanedDataset.rows[i][j].x <= hi
  {
    var rows := DropDuplicates(d).rows;
    var values := ColumnValues(rows, j);
    forall i | 0 <= i < |rows| && Clean(d).cleanedDataset.rows[i][j].Num?
      ensures lo <= Clean(d).cleanedDataset.rows[i][j].x <= hi
    {
      CleanCells(d, i, j);
      if rows[i][j] == Null {
        MeanBounds(values, lo, hi);
      }
    }
  }

  /** No categorical key is in the log when the categorical loop starts. */
  lemma CategoricalKeysFresh(d: Dataset)
    requires WellFormed(d)
    ensures FreshKeys(CategoricalPass, d.columns, AfterNumeric(d).log)
  {
    var log := AfterNumeric(d).log;
    NumericStageLog(d);
    forall j | 0 <= j < |d.columns| ensures CategoricalPass.Key(d.columns[j].name) !in log {
      var key := CategoricalPass.Key(d.columns[j].name);
      KeysDisjoint(d.columns[j].name, d.columns[j].name);
      if key in log {
        var j' :| 0 <= j' < |d.columns| && d.columns[j'].kind == Numeric && key == NumericPass.Key(d.columns[j'].name);
        KeysDisjoint(d.columns[j'].name, d.columns[j].name);
      }
    }
  }

  /** The numeric loop leaves every non-numeric column as deduplication left it. */
  lemma NonNumericColumnUntouched(d: Dataset, j: nat)
    requires WellFormed(d) && j < |d.columns| && d.columns[j].kind != Numeric
    ensures ColumnValues(AfterNumeric(d).rows, j) == ColumnValues(DropDuplicates(d).rows, j)
  {
    forall i | 0 <= i < |DropDuplicates(d).rows| ensures AfterNumeric(d).rows[i][j] == DropDuplicates(d).rows[i][j] {
      NumericStageCells(d, i, j);
    }
  }

  /** `clean_dataset`, step by step, as the source runs it. */
  method CleanDataset(dataset: Dataset) returns (result: CleanResult)
    requires WellFormed(dataset)
    ensures result == Clean(dataset)
  {
    var cleaningLog: CleaningLog := map[];
    var beforeRows := |dataset.rows|;
    var deduped := DropDuplicates(dataset);
    var afterRows := |deduped.rows|;
    cleaningLog := cleaningLog[RemovedDuplicates := beforeRows - afterRows];
    var rows := deduped.rows;

    assert Progress(rows, cleaningLog) == Deduplicated(dataset);

    var numCols := SelectDtypes(dataset.columns, Numeric);
    rows, cleaningLog := ImputeColumns(NumericPass, dataset.columns, numCols, rows, cleaningLog);
    assert Progress(rows, cleaningLog) == AfterNumeric(dataset);

    var catCols := SelectDtypes(dataset.columns, Object);
    rows, cleaningLog := ImputeColumns(CategoricalPass, dataset.columns, catCols, rows, cleaningLog);
    assert Progress(rows, cleaningLog) == AfterCategorical(dataset);

    result := CleanResult(Dataset(dataset.columns, deduped.index, rows), cleaningLog);
  }

  /**
   * One imputation loop of `clean_dataset`: for each selected column with missing cells,
   * fill them and log how many there were.
   */
  method ImputeColumns(pass: Pass, columns: seq<Column>, cols: seq<nat>, rows0: seq<Row>, log0: CleaningLog)
    returns (rows: seq<Row>, cleaningLog: CleaningLog)
    requires ValidPositions(cols, |columns|) && Rectangular(rows0, |columns|)
    ensures Progress(rows, cleaningLog) == ImputePass(pass, columns, cols, Progress(rows0, log0))
  {
    rows, cleaningLog := rows0, log0;
    for t := 0 to |cols|
      invariant Rectangular(rows, |columns|)
      invariant Progress(rows, cleaningLog) == ImputePass(pass, columns, cols[..t], Progress(rows0, log0))
    {
      var column := cols[t];
      var values := ColumnValues(rows, column);
      var missingCount := NullCount(values);
      if missingCount > 0 {
        rows := FillNa(rows, column, pass.FillValue(values));
        cleaningLog := cleaningLog[pass.Key(columns[column].name) := missingCount];
      }
      assert Progress(rows, cleaningLog) == ImputeColumn(pass, columns, column, ImputePass(pass, columns, cols[..t], Progress(rows0, log0)));
      ImputePassStep(pass, columns, cols, t, Progress(rows0, log0));
    }
    assert cols[..|cols|] == cols;
  }
}
