/**
 * The part of a pandas DataFrame that the dataset cleaner relies on: cells that are
 * numbers, strings or missing, a dtype class per column, row index labels, and the
 * library operations the cleaner calls (select_dtypes, drop_duplicates, isnull().sum(),
 * mean(), fillna). Numbers are mathematical reals rather than IEEE doubles.
 */
module DataFrame {
  import opened Wrappers

  /** A cell: a number, a string, or a missing value (NaN / None). */
  datatype Value = Num(x: real) | Str(s: string) | Null

  /** The dtype class of a column: float64/int64, object, or anything else (bool, datetime, ...). */
  datatype Kind = Numeric | Object | Other

  datatype Column = Column(name: string, kind: Kind)

  type Row = seq<Value>

  /** A table: its columns, one index label per row, and the rows themselves. */
  datatype Dataset = Dataset(columns: seq<Column>, index: seq<int>, rows: seq<Row>)

  /** Every row has exactly one cell per column. */
  predicate Rectangular(rows: seq<Row>, width: nat)
  {
    forall i :: 0 <= i < |rows| ==> |rows[i]| == width
  }

  predicate DistinctNames(columns: seq<Column>)
  {
    forall j, k :: 0 <= j < k < |columns| ==> columns[j].name != columns[k].name
  }

  /** A float64/int64 column holds no strings; an object column read from CSV holds no numbers. */
  predicate CellFits(kind: Kind, v: Value)
  {
    match kind
    case Numeric => !v.Str?
    case Object => !v.Num?
    case Other => true
  }

  /** What every DataFrame built from a CSV file satisfies. */
  predicate WellFormed(d: Dataset)
  {
    && |d.index| == |d.rows|
    && Rectangular(d.rows, |d.columns|)
    && DistinctNames(d.columns)
    && forall i, j :: 0 <= i < |d.rows| && 0 <= j < |d.columns| ==> CellFits(d.columns[j].kind, d.rows[i][j])
  }

  /** The values of column j, top to bottom (`dataset[column]`). */
  function ColumnValues(rows: seq<Row>, j: nat): (c: seq<Value>)
    requires forall i :: 0 <= i < |rows| ==> j < |rows[i]|
    ensures |c| == |rows|
    ensures forall i :: 0 <= i < |rows| ==> c[i] == rows[i][j]
  {
    seq(|rows|, i requires 0 <= i < |rows| => rows[i][j])
  }

  /**
   * `select_dtypes(include=...)`: the positions of the columns of the given kind,
   * in column order.
   */
  function SelectDtypes(columns: seq<Column>, kind: Kind): (idx: seq<nat>)
    ensures forall t :: 0 <= t < |idx| ==> idx[t] < |columns| && columns[idx[t]].kind == kind
    ensures forall j :: 0 <= j < |columns| && columns[j].kind == kind ==> j in idx
    ensures forall s, t :: 0 <= s < t < |idx| ==> idx[s] < idx[t]
  {
    if |columns| == 0 then []
    else
      var earlier := SelectDtypes(columns[..|columns| - 1], kind);
      if columns[|columns| - 1].kind == kind then earlier + [|columns| - 1] else earlier
  }

  // ---------------------------------------------------------------------------
  // drop_duplicates

  /** No element occurs twice. */
  predicate Distinct<T(==)>(s: seq<T>)
  {
    forall a, b :: 0 <= a < b < |s| ==> s[a] != s[b]
  }

  /** Position i holds the first occurrence of its element. */
  predicate FirstAt<T(==)>(s: seq<T>, i: nat)
    requires i < |s|
  {
    forall q :: 0 <= q < i ==> s[q] != s[i]
  }

  /**
   * The positions of the first occurrence of each distinct element, in increasing order:
   * exactly the positions i whose element does not occur before i.
   */
  function FirstOccurrences<T(==)>(s: seq<T>): (ps: seq<nat>)
    ensures forall t :: 0 <= t < |ps| ==> ps[t] < |s| && FirstAt(s, ps[t])
    ensures forall i :: 0 <= i < |s| && FirstAt(s, i) ==> i in ps
    ensures forall a, b :: 0 <= a < b < |ps| ==> ps[a] < ps[b]
  {
    if |s| == 0 then []
    else
      var init := s[..|s| - 1];
      var earlier := FirstOccurrences(init);
      FirstAtPrefix(s, init);
      if FirstAt(s, |s| - 1) then earlier + [|s| - 1] else earlier
  }

  /** Below the length of a prefix, being a first occurrence means the same in the prefix. */
  lemma FirstAtPrefix<T>(s: seq<T>, init: seq<T>)
    requires |init| <= |s| && init == s[..|init|]
    ensures forall i :: 0 <= i < |init| ==> (FirstAt(init, i) <==> FirstAt(s, i))
  {
  }

  /** The earliest position holding the same element as position i. */
  lemma {:induction false} EarliestOccurrence<T>(s: seq<T>, i: nat) returns (p: nat)
    requires i < |s|
    ensures p <= i && s[p] == s[i] && FirstAt(s, p)
    decreases i
  {
    if FirstAt(s, i) {
      p := i;
    } else {
      var q :| 0 <= q < i && s[q] == s[i];
      p := EarliestOccurrence(s, q);
    }
  }

  /** The elements of s at the positions ps, in that order. */
  function Pick<T>(s: seq<T>, ps: seq<nat>): (r: seq<T>)
    requires forall t :: 0 <= t < |ps| ==> ps[t] < |s|
    ensures |r| == |ps|
  {
    seq(|ps|, t requires 0 <= t < |ps| => s[ps[t]])
  }

  /**
   * `drop_duplicates()`: keeps the first occurrence of every distinct row, in the
   * original order, together with its index label. Rows are compared cell by cell
   * over all columns, and missing values compare equal to each other. An empty frame
   * (one without columns or without rows) is returned as it is.
   */
  function DropDuplicates(d: Dataset): (r: Dataset)
    requires |d.index| == |d.rows|
    ensures r.columns == d.columns && |r.index| == |r.rows| <= |d.rows|
    ensures |d.columns| == 0 ==> r == d
    ensures |d.columns| > 0 ==> Distinct(r.rows)
    ensures forall row :: row in r.rows <==> row in d.rows
    ensures |d.columns| > 0 ==>
      && |r.rows| == |FirstOccurrences(d.rows)|
      && forall t :: 0 <= t < |r.rows| ==>
           var p := FirstOccurrences(d.rows)[t]; r.rows[t] == d.rows[p] && r.index[t] == d.index[p]
  {
    if |d.columns| == 0 then d
    else
      var ps := FirstOccurrences(d.rows);
      DistinctFirstOccurrences(d.rows);
      PickCoversAll(d.rows);
      Dataset(d.columns, Pick(d.index, ps), Pick(d.rows, ps))
  }

  /** The elements at first-occurrence positions are pairwise different, and there are at most |s| of them. */
  lemma DistinctFirstOccurrences<T>(s: seq<T>)
    ensures Distinct(Pick(s, FirstOccurrences(s)))
    ensures |FirstOccurrences(s)| <= |s|
  {
    var ps := FirstOccurrences(s);
    forall a, b | 0 <= a < b < |ps| ensures s[ps[a]] != s[ps[b]] {
      assert FirstAt(s, ps[b]);
    }
    StrictlyIncreasingBound(ps, |s|);
  }

  /** Every element of s is kept at its first occurrence, and nothing else is kept. */
  lemma PickCoversAll<T>(s: seq<T>)
    ensures forall x :: x in Pick(s, FirstOccurrences(s)) <==> x in s
  {
    var ps := FirstOccurrences(s);
    var r := Pick(s, ps);
    forall x | x in s ensures x in r {
      var i :| 0 <= i < |s| && s[i] == x;
      var p := EarliestOccurrence(s, i);
      var t :| 0 <= t < |ps| && ps[t] == p;
      assert r[t] == x;
    }
  }

  /** In a sequence without repeats every position is a first occurrence, so all are kept. */
  lemma {:induction false} FirstOccurrencesOfDistinct<T>(s: seq<T>)
    requires Distinct(s)
    ensures FirstOccurrences(s) == seq(|s|, i => i)
  {
    if |s| > 0 {
      var init := s[..|s| - 1];
      FirstOccurrencesOfDistinct(init);
      assert FirstAt(s, |s| - 1);
    }
  }

  /** `drop_duplicates()` on a table without repeated rows returns it unchanged. */
  lemma DropDuplicatesOfDistinct(d: Dataset)
    requires |d.index| == |d.rows| && Distinct(d.rows)
    ensures DropDuplicates(d) == d
  {
    if |d.columns| > 0 {
      FirstOccurrencesOfDistinct(d.rows);
    }
  }

  /** `drop_duplicates()` is idempotent. */
  lemma DropDuplicatesIdempotent(d: Dataset)
    requires |d.index| == |d.rows|
    ensures DropDuplicates(DropDuplicates(d)) == DropDuplicates(d)
  {
    if |d.columns| > 0 {
      DropDuplicatesOfDistinct(DropDuplicates(d));
    }
  }

  /** A strictly increasing sequence of positions below n has at most n entries. */
  lemma {:induction false} StrictlyIncreasingBound(ps: seq<nat>, n: nat)
    requires forall t :: 0 <= t < |ps| ==> ps[t] < n
    requires forall a, b :: 0 <= a < b < |ps| ==> ps[a] < ps[b]
    ensures |ps| <= n
  {
    if |ps| > 0 {
      var last := ps[|ps| - 1];
      StrictlyIncreasingBound(ps[..|ps| - 1], last);
    }
  }

  // ---------------------------------------------------------------------------
  // isnull().sum(), mean(), fillna()

  /** `isnull().sum()`: the number of missing cells. */
  function NullCount(col: seq<Value>): (n: nat)
    ensures n <= |col|
  {
    if |col| == 0 then 0 else NullCount(col[..|col| - 1]) + (if col[|col| - 1] == Null then 1 else 0)
  }

  /** The number of numeric cells. */
  function NumCount(col: seq<Value>): nat
  {
    if |col| == 0 then 0 else NumCount(col[..|col| - 1]) + (if col[|col| - 1].Num? then 1 else 0)
  }

  /** The sum of the numeric cells. */
  function NumSum(col: seq<Value>): real
  {
    if |col| == 0 then 0.0 else NumSum(col[..|col| - 1]) + (if col[|col| - 1].Num? then col[|col| - 1].x else 0.0)
  }

  /**
   * `mean()` with missing values skipped: the sum of the numeric cells divided by their
   * number; None where pandas yields NaN because there is no numeric cell.
   */
  function Mean(col: seq<Value>): (m: Option<real>)
    ensures m.None? <==> NumCount(col) == 0
    ensures m.Some? ==> m.value * (NumCount(col) as real) == NumSum(col)
  {
    if NumCount(col) == 0 then None else Some(NumSum(col) / (NumCount(col) as real))
  }

  /** `fillna(v)` applied to column j: every missing cell of that column becomes v. */
  function FillNa(rows: seq<Row>, j: nat, v: Value): (r: seq<Row>)
    requires forall i :: 0 <= i < |rows| ==> j < |rows[i]|
    ensures |r| == |rows|
    ensures forall i :: 0 <= i < |r| ==> |r[i]| == |rows[i]|
    ensures forall i, k :: 0 <= i < |r| && 0 <= k < |r[i]| ==>
      r[i][k] == if k == j && rows[i][j] == Null then v else rows[i][k]
  {
    seq(|rows|, i requires 0 <= i < |rows| => if rows[i][j] == Null then rows[i][j := v] else rows[i])
  }

  /** After `fillna(v)` with a present value v, column j has no missing cell and the other columns are unchanged. */
  lemma FillNaClears(rows: seq<Row>, width: nat, j: nat, v: Value)
    requires Rectangular(rows, width) && j < width
    requires v != Null
    ensures NullCount(ColumnValues(FillNa(rows, j, v), j)) == 0
    ensures forall k :: 0 <= k < width && k != j ==> ColumnValues(FillNa(rows, j, v), k) == ColumnValues(rows, k)
  {
    NoNullsCount(ColumnValues(FillNa(rows, j, v), j));
    forall k | 0 <= k < width && k != j ensures ColumnValues(FillNa(rows, j, v), k) == ColumnValues(rows, k) {
    }
  }

  /** The null count is positive exactly when some cell is missing. */
  lemma {:induction false} NullCountPositive(col: seq<Value>)
    ensures NullCount(col) > 0 <==> Null in col
  {
    if |col| > 0 {
      var init := col[..|col| - 1];
      NullCountPositive(init);
      assert col == init + [col[|col| - 1]];
    }
  }

  /** A column none of whose cells is missing has a null count of zero. */
  lemma {:induction false} NoNullsCount(col: seq<Value>)
    requires forall i :: 0 <= i < |col| ==> col[i] != Null
    ensures NullCount(col) == 0
  {
    if |col| > 0 {
      NoNullsCount(col[..|col| - 1]);
    }
  }

  /** In a numeric column every cell is a number or missing, so the two counts add up to its length. */
  lemma {:induction false} NumericCounts(col: seq<Value>)
    requires forall i :: 0 <= i < |col| ==> CellFits(Numeric, col[i])
    ensures NumCount(col) + NullCount(col) == |col|
  {
    if |col| > 0 {
      NumericCounts(col[..|col| - 1]);
    }
  }

  /** A column whose cells are all missing has no number, and its null count is its length. */
  lemma {:induction false} AllNullCounts(col: seq<Value>)
    requires forall i :: 0 <= i < |col| ==> col[i] == Null
    ensures NullCount(col) == |col| && NumCount(col) == 0
  {
    if |col| > 0 {
      AllNullCounts(col[..|col| - 1]);
    }
  }

  /** The mean of a column lies between any lower and upper bound of its numbers. */
  lemma MeanBounds(col: seq<Value>, lo: real, hi: real)
    requires forall i :: 0 <= i < |col| && col[i].Num? ==> lo <= col[i].x <= hi
    requires NumCount(col) > 0
    ensures lo <= Mean(col).value <= hi
  {
    SumBounds(col, lo, hi);
    QuotientBounds(NumSum(col), NumCount(col) as real, Mean(col).value, lo, hi);
  }

  /** A quotient m = sum / n with n > 0 inherits the bounds lo * n <= sum <= hi * n as lo <= m <= hi. */
  lemma QuotientBounds(sum: real, n: real, m: real, lo: real, hi: real)
    requires n > 0.0 && m * n == sum && lo * n <= sum <= hi * n
    ensures lo <= m <= hi
  {
    assert (m - lo) * n == sum - lo * n;
    assert (hi - m) * n == hi * n - sum;
  }

  /** The sum of the numbers lies between count * lo and count * hi. */
  lemma {:induction false} SumBounds(col: seq<Value>, lo: real, hi: real)
    requires forall i :: 0 <= i < |col| && col[i].Num? ==> lo <= col[i].x <= hi
    ensures lo * (NumCount(col) as real) <= NumSum(col) <= hi * (NumCount(col) as real)
  {
    if |col| > 0 {
      SumBounds(col[..|col| - 1], lo, hi);
    }
  }
}
