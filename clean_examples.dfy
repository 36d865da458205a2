/** Worked instances of `clean_dataset` on small tables. */
module CleanExamples {
  import opened DataFrame
  import opened CustomTool

  /**
   * Rows (x, s), (x, s), (missing, missing) in a numeric column a and an object column b;
   * with x = 1 and s = "x" this is the table [{a:1, b:"x"}, {a:1, b:"x"}, {a:null, b:null}].
   */
  function ThreeRows(x: real, s: string): (d: Dataset)
    ensures WellFormed(d)
  {
    Dataset([Column("a", Numeric), Column("b", Object)], [0, 1, 2],
            [[Num(x), Str(s)], [Num(x), Str(s)], [Null, Null]])
  }

  /** drop_duplicates keeps rows 0 and 2 of ThreeRows. */
  lemma ThreeRowsDeduplicated(x: real, s: string)
    ensures DropDuplicates(ThreeRows(x, s)) == Dataset(ThreeRows(x, s).columns, [0, 2], [[Num(x), Str(s)], [Null, Null]])
  {
    var rows := ThreeRows(x, s).rows;
    assert FirstOccurrences(rows[..1]) == [0];
    assert rows[..2][..1] == rows[..1];
    assert !FirstAt(rows[..2], 1) by {
      assert rows[..2][0] == rows[..2][1];
    }
    assert FirstOccurrences(rows[..2]) == [0];
    assert rows[..3] == rows && rows[..3][..2] == rows[..2];
    assert FirstAt(rows, 2);
    assert FirstOccurrences(rows) == [0, 2];
  }

  /** After deduplication column a holds 1 and a missing cell; column b holds "x" and a missing cell. */
  lemma ThreeRowsColumns(x: real, s: string)
    ensures var rows := DropDuplicates(ThreeRows(x, s)).rows;
      && NumCount(ColumnValues(rows, 0)) == 1 && NumSum(ColumnValues(rows, 0)) == x
      && NullCount(ColumnValues(rows, 0)) == 1 && NullCount(ColumnValues(rows, 1)) == 1
  {
    ThreeRowsDeduplicated(x, s);
    var rows := DropDuplicates(ThreeRows(x, s)).rows;
    var a := ColumnValues(rows, 0);
    var b := ColumnValues(rows, 1);
    assert a == [Num(x), Null] && b == [Str(s), Null];
    NumberThenMissing(x, a);
    StringThenMissing(s, b);
  }

  /**
   * Cleaning ThreeRows removes one duplicate, fills the missing a with the mean x of the
   * remaining numbers and the missing b with "Unknown", and keeps two rows, labelled 0 and 2.
   */
  lemma ThreeRowsCleaned(x: real, s: string)
    ensures Clean(ThreeRows(x, s)).cleanedDataset
      == Dataset(ThreeRows(x, s).columns, [0, 2], [[Num(x), Str(s)], [Num(x), Str("Unknown")]])
  {
    ThreeRowsCleanedCell(x, s, 0, 0);
    ThreeRowsCleanedCell(x, s, 0, 1);
    ThreeRowsCleanedCell(x, s, 1, 0);
    ThreeRowsCleanedCell(x, s, 1, 1);
    var rows := Clean(ThreeRows(x, s)).cleanedDataset.rows;
    assert rows[0] == [Num(x), Str(s)] && rows[1] == [Num(x), Str("Unknown")];
    ThreeRowsDeduplicated(x, s);
  }

  /** One cell of the cleaned ThreeRows. */
  lemma ThreeRowsCleanedCell(x: real, s: string, i: nat, j: nat)
    requires i < 2 && j < 2
    ensures var rows := Clean(ThreeRows(x, s)).cleanedDataset.rows;
      && |rows| == 2 && |rows[i]| == 2
      && rows[i][j] == [[Num(x), Str(s)], [Num(x), Str("Unknown")]][i][j]
  {
    ThreeRowsDeduplicated(x, s);
    ThreeRowsColumns(x, s);
    var a := ColumnValues(DropDuplicates(ThreeRows(x, s)).rows, 0);
    assert NumSum(a) / NumCount(a) as real == x;
    CleanCells(ThreeRows(x, s), i, j);
  }

  /** The log keys of columns a and b. */
  lemma KeysOfAB()
    ensures NumericPass.Key("a") == "Filled Missing Values (Numeric): a"
    ensures CategoricalPass.Key("b") == "Filled Missing Values (Categorical): b"
  {
  }

  /** ThreeRows loses one duplicate row. */
  lemma ThreeRowsLogDuplicates(x: real, s: string)
    ensures var log := Clean(ThreeRows(x, s)).cleaningLog;
      "Removed Duplicates" in log && log["Removed Duplicates"] == 1
  {
    ThreeRowsDeduplicated(x, s);
    CleanLog(ThreeRows(x, s));
  }

  /** Column a has one missing value left after deduplication. */
  lemma ThreeRowsLogNumeric(x: real, s: string)
    ensures var log := Clean(ThreeRows(x, s)).cleaningLog;
      "Filled Missing Values (Numeric): a" in log && log["Filled Missing Values (Numeric): a"] == 1
  {
    var d := ThreeRows(x, s);
    ThreeRowsDeduplicated(x, s);
    ThreeRowsColumns(x, s);
    CleanLogColumn(d, 0);
    KeysOfAB();
  }

  /** Column b has one missing value left after deduplication. */
  lemma ThreeRowsLogCategorical(x: real, s: string)
    ensures var log := Clean(ThreeRows(x, s)).cleaningLog;
      "Filled Missing Values (Categorical): b" in log && log["Filled Missing Values (Categorical): b"] == 1
  {
    var d := ThreeRows(x, s);
    ThreeRowsDeduplicated(x, s);
    ThreeRowsColumns(x, s);
    CleanLogColumn(d, 1);
    KeysOfAB();
  }

  /** The log of ThreeRows holds no other key. */
  lemma ThreeRowsLogKeys(x: real, s: string)
    ensures forall k :: k in Clean(ThreeRows(x, s)).cleaningLog ==>
      k in {"Removed Duplicates", "Filled Missing Values (Numeric): a", "Filled Missing Values (Categorical): b"}
  {
    var d := ThreeRows(x, s);
    var log := Clean(d).cleaningLog;
    CleanLogKeys(d);
    forall k | k in log
      ensures k in {"Removed Duplicates", "Filled Missing Values (Numeric): a", "Filled Missing Values (Categorical): b"}
    {
      if k != RemovedDuplicates {
        var j :| 0 <= j < |d.columns| && ImputationKey(d.columns, j, k);
        KeysOfAB();
        assert j == 0 || j == 1;
      }
    }
  }

  /** The log of cleaning ThreeRows: one duplicate, one numeric fill in a, one categorical fill in b. */
  lemma ThreeRowsLog(x: real, s: string)
    ensures Clean(ThreeRows(x, s)).cleaningLog == map[
      "Removed Duplicates" := 1,
      "Filled Missing Values (Numeric): a" := 1,
      "Filled Missing Values (Categorical): b" := 1]
  {
    ThreeRowsLogDuplicates(x, s);
    ThreeRowsLogNumeric(x, s);
    ThreeRowsLogCategorical(x, s);
    ThreeRowsLogKeys(x, s);
  }

  /** One numeric column a with rows x and (missing): two different rows. */
  function TwoRows(x: real): (d: Dataset)
    ensures WellFormed(d) && Distinct(d.rows)
  {
    Dataset([Column("a", Numeric)], [0, 1], [[Num(x)], [Null]])
  }

  /**
   * Imputation can turn two different rows into equal ones: the missing cell of TwoRows
   * becomes the mean x, so the cleaned table holds the same row twice.
   */
  lemma ImputationCanRepeatRows(x: real)
    ensures Clean(TwoRows(x)).cleanedDataset.rows == [[Num(x)], [Num(x)]]
    ensures !Distinct(Clean(TwoRows(x)).cleanedDataset.rows)
  {
    TwoRowsCleanedCell(x, 0);
    TwoRowsCleanedCell(x, 1);
    var rows := Clean(TwoRows(x)).cleanedDataset.rows;
    assert rows[0] == [Num(x)] && rows[1] == [Num(x)];
  }

  /** Both cells of TwoRows become x. */
  lemma TwoRowsCleanedCell(x: real, i: nat)
    requires i < 2
    ensures var rows := Clean(TwoRows(x)).cleanedDataset.rows;
      |rows| == 2 && |rows[i]| == 1 && rows[i][0] == Num(x)
  {
    var d := TwoRows(x);
    DropDuplicatesOfDistinct(d);
    var a := ColumnValues(DropDuplicates(d).rows, 0);
    assert a == [Num(x), Null];
    NumberThenMissing(x, a);
    assert NumSum(a) / NumCount(a) as real == x;
    CleanCells(d, i, 0);
  }

  /** The counts of a column holding a number and then a missing cell. */
  lemma NumberThenMissing(x: real, col: seq<Value>)
    requires col == [Num(x), Null]
    ensures NumCount(col) == 1 && NumSum(col) == x && NullCount(col) == 1
  {
    var init := col[..1];
    assert init == [Num(x)] && init[..0] == [];
    assert NumCount(init) == 1 && NumSum(init) == x && NullCount(init) == 0;
    assert col[1] == Null;
  }

  /** The null count of a column holding a string and then a missing cell. */
  lemma StringThenMissing(s: string, col: seq<Value>)
    requires col == [Str(s), Null]
    ensures NullCount(col) == 1
  {
    var init := col[..1];
    assert init == [Str(s)] && init[..0] == [];
    assert NullCount(init) == 0;
    assert col[1] == Null;
  }

  /** Two rows and no columns: pd.DataFrame(index=[0, 1]). */
  function NoColumns(): (d: Dataset)
    ensures WellFormed(d) && |d.rows| == 2
  {
    Dataset([], [0, 1], [[], []])
  }

  /**
   * A frame without columns is empty, so drop_duplicates returns it whole although its
   * two rows are equal, and the log reports no removed duplicates.
   */
  lemma NoColumnsKeepsRows()
    ensures NoColumns().rows[0] == NoColumns().rows[1]
    ensures Clean(NoColumns()).cleanedDataset == NoColumns()
    ensures Clean(NoColumns()).cleaningLog == map[RemovedDuplicates := 0]
  {
    var d := NoColumns();
    CleanLog(d);
    CleanLogKeys(d);
    var log := Clean(d).cleaningLog;
    forall k | k in log ensures k == RemovedDuplicates {
    }
    assert Clean(d).cleanedDataset.rows == d.rows by {
      forall i | 0 <= i < 2 ensures Clean(d).cleanedDataset.rows[i] == [] {
      }
    }
  }
}
