/** Cell-by-cell comparison of two tables (DataFrame_Comparison.py, and the
    identical functions of data_comparison.py): the generated test grid, the
    difference table and the highlighting styles.
 */
module Comparison {
  import opened Optional
  import opened Decimal

  /** A table: row labels, column labels and a grid of possibly missing cells. */
  datatype Frame<T> = Frame(index: seq<int>, columns: seq<string>, cells: seq<seq<Option<T>>>) {

    /** One row of cells per row label, one cell per column label in every row. */
    predicate WellFormed() {
      && |cells| == |index|
      && forall r :: 0 <= r < |cells| ==> |cells[r]| == |columns|
    }

    /** (number of rows, number of columns), as pandas reports `shape`. */
    function Shape(): (nat, nat) {
      (|index|, |columns|)
    }
  }

  /** The exceptions these functions raise. The first three are Python
      ValueErrors, the last an IndexError. */
  datatype Error =
    | TargetRowTooLarge  // produce_dataframe's own guard
    | ShapeMismatch      // compare_dataframes' own guard
    | LabelMismatch      // pandas comparing frames whose labels differ
    | IndexOutOfRange    // a Python list index outside the list

  /** True for the errors Python reports as ValueError. */
  predicate IsValueError(e: Error) {
    !e.IndexOutOfRange?
  }

  // ---------------------------------------------------------------------
  // produce_dataframe
  // ---------------------------------------------------------------------

  const ColumnPrefix: string := "Column "

  /** The label of column `c`: 'Column {}'.format(c). */
  function ColumnHeader(c: nat): (name: string)
    ensures |name| > |ColumnPrefix| && name[..|ColumnPrefix|] == ColumnPrefix
    ensures forall k :: |ColumnPrefix| <= k < |name| ==> IsDigit(name[k])
  {
    ColumnPrefix + NatToString(c)
  }

  /** The column number a generated label stands for, or missing for any other label. */
  function ColumnNumber(text: string): Option<nat> {
    if |text| > |ColumnPrefix| && text[..|ColumnPrefix|] == ColumnPrefix
       && forall k :: |ColumnPrefix| <= k < |text| ==> IsDigit(text[k])
    then
      var digits := text[|ColumnPrefix|..];
      assert forall k :: 0 <= k < |digits| ==> digits[k] == text[|ColumnPrefix| + k];
      Some(ParseNat(digits))
    else None
  }

  /** Every generated column label leads back to its column number, so the
      labels of a generated grid are pairwise distinct. */
  lemma ColumnHeaderRoundTrip(c: nat)
    ensures ColumnNumber(ColumnHeader(c)) == Some(c)
  {
    var text := ColumnHeader(c);
    assert text[|ColumnPrefix|..] == NatToString(c);
    ParseNatToString(c);
  }

  /** Position that Python list indexing `xs[i]` reads in a list of length
      `len`: negative indices count from the end; anything else is an IndexError. */
  function PyIndex(i: int, len: nat): (p: Option<nat>)
    ensures p.Some? <==> -(len as int) <= i < len
    ensures p.Some? ==> p.value < len && (p.value == i || p.value == i + len)
  {
    if 0 <= i < len then Some(i)
    else if -(len as int) <= i < 0 then Some(i + len)
    else None
  }

  /** The n by n grid whose row `target` is doubled and every other row is 0 .. n-1. */
  function Grid(n: nat, target: nat): (f: Frame<int>)
    requires target < n
    ensures f.WellFormed() && f.Shape() == (n, n)
  {
    Frame(seq(n, r => r),
          seq(n, c requires 0 <= c < n => ColumnHeader(c)),
          seq(n, r => seq(n, c => Some(if r == target then 2 * c else c))))
  }

  /** `produce_dataframe(dimensions, row_num)`, code as written: the guard
      rejects only `row_num > dimensions`; the doubled row is then read with
      Python list indexing from a list of max(dimensions, 0) rows. */
  function ProduceDataFrame(dimensions: int, rowNum: int): (r: Result<Frame<int>, Error>)
    ensures r == Err(TargetRowTooLarge) <==> rowNum > dimensions
    ensures r == Err(IndexOutOfRange) <==> rowNum <= dimensions && (rowNum == dimensions || rowNum < -dimensions)
    ensures r.Ok? <==> -dimensions <= rowNum < dimensions
    ensures r.Ok? ==> r.value.WellFormed() && |r.value.index| == |r.value.columns| == dimensions
    ensures r.Ok? ==> forall k :: 0 <= k < dimensions ==>
              r.value.index[k] == k && r.value.columns[k] == ColumnHeader(k)
    ensures r.Ok? ==> forall row, c :: 0 <= row < dimensions && 0 <= c < dimensions ==>
              r.value.cells[row][c] == Some(if row == rowNum || row == rowNum + dimensions then 2 * c else c)
  {
    var n: nat := if dimensions < 0 then 0 else dimensions;
    if rowNum > dimensions then Err(TargetRowTooLarge)
    else
      match PyIndex(rowNum, n)
      case None => Err(IndexOutOfRange)
      case Some(target) => Ok(Grid(n, target))
  }

  /** `produce_dataframe` with the guard `row_num >= dimensions`: every
      row_num at or past the grid's end is rejected with the ValueError, and no
      non-negative row_num reaches the IndexError. A row_num below
      -dimensions still raises IndexError, as Python list indexing does. */
  function ProduceDataFrameGuarded(dimensions: int, rowNum: int): (r: Result<Frame<int>, Error>)
    ensures r == Err(TargetRowTooLarge) <==> rowNum >= dimensions
    ensures rowNum >= 0 ==> r.Ok? || r == Err(TargetRowTooLarge)
    ensures rowNum != dimensions ==> r == ProduceDataFrame(dimensions, rowNum)
  {
    if rowNum >= dimensions then Err(TargetRowTooLarge)
    else ProduceDataFrame(dimensions, rowNum)
  }

  /** The guard `row_num > dimensions` lets `row_num == dimensions` through,
      and the row lookup then raises IndexError instead of the ValueError the
      guard was written to give. */
  lemma GuardMissesLastRow(n: nat)
    ensures ProduceDataFrame(n, n) == Err(IndexOutOfRange)
    ensures !IsValueError(ProduceDataFrame(n, n).error)
    ensures ProduceDataFrameGuarded(n, n) == Err(TargetRowTooLarge)
  {
  }

  // ---------------------------------------------------------------------
  // Cell comparison with NaN semantics
  // ---------------------------------------------------------------------

  /** `a == b` on two cells: a missing cell equals nothing, not even another missing cell. */
  predicate CellEquals<T(==)>(a: Option<T>, b: Option<T>)
    ensures CellEquals(a, b) <==> a.Some? && a == b
  {
    a.Some? && b.Some? && a.value == b.value
  }

  /** The two frames carry the same row and column labels. */
  predicate SameLabels<T, U>(f: Frame<T>, g: Frame<U>) {
    f.index == g.index && f.columns == g.columns
  }

  // ---------------------------------------------------------------------
  // highlight_diff
  // ---------------------------------------------------------------------

  const DefaultColor: string := "yellow"

  /** The style given to a highlighted cell: 'background-color: {}'.format(color). */
  function Highlight(color: string): string {
    "background-color: " + color
  }

  /** `highlight_diff`: a style grid shaped like `full`, with the highlight
      where the full cell equals the cell to highlight and '' elsewhere.
      Comparing frames with different labels raises a ValueError in pandas. */
  function HighlightDiff<T(==)>(full: Frame<T>, toHighlight: Frame<T>, color: string): (r: Result<Frame<string>, Error>)
    requires full.WellFormed() && toHighlight.WellFormed()
    ensures r.Ok? <==> SameLabels(full, toHighlight)
    ensures r.Err? ==> r.error == LabelMismatch
    ensures r.Ok? ==> r.value.WellFormed() && SameLabels(r.value, full)
    ensures r.Ok? ==> forall row, c :: 0 <= row < |full.index| && 0 <= c < |full.columns| ==>
              && (r.value.cells[row][c] == Some(Highlight(color)) <==> CellEquals(full.cells[row][c], toHighlight.cells[row][c]))
              && (r.value.cells[row][c] == Some(Highlight(color)) || r.value.cells[row][c] == Some(""))
  {
    if !SameLabels(full, toHighlight) then Err(LabelMismatch)
    else
      Ok(Frame(full.index, full.columns,
               seq(|full.index|, row requires 0 <= row < |full.index| =>
                 seq(|full.columns|, c requires 0 <= c < |full.columns| =>
                   Some(if CellEquals(full.cells[row][c], toHighlight.cells[row][c]) then Highlight(color) else "")))))
  }

  // ---------------------------------------------------------------------
  // compare_dataframes
  // ---------------------------------------------------------------------

  /** `df2.where(df2 != df1)` on one cell: the second cell where the two are
      not equal, missing where they are. */
  function KeepIfDifferent<T(==)>(a: Option<T>, b: Option<T>): (kept: Option<T>)
    ensures kept.Some? <==> b.Some? && a != b
    ensures kept.Some? ==> kept == b
  {
    if CellEquals(a, b) then None else b
  }

  /** The two results of `compare_dataframes`: the difference table and the
      style grid the returned Styler applies to df2. */
  datatype Outcome<T> = Outcome(diff: Frame<T>, styles: Frame<string>)

  /** `compare_dataframes(df1, df2)`. */
  function CompareDataFrames<T(==)>(df1: Frame<T>, df2: Frame<T>): (r: Result<Outcome<T>, Error>)
    requires df1.WellFormed() && df2.WellFormed()
    ensures r == Err(ShapeMismatch) <==> df1.Shape() != df2.Shape()
    ensures r.Ok? <==> SameLabels(df1, df2)
    ensures r.Err? ==> IsValueError(r.error)
    ensures df1.Shape() == df2.Shape() && !SameLabels(df1, df2) ==> r == Err(LabelMismatch)
    ensures r.Ok? ==> r.value.diff.WellFormed() && SameLabels(r.value.diff, df2) && r.value.diff.Shape() == df1.Shape()
    ensures r.Ok? ==> forall row, c :: 0 <= row < |df2.index| && 0 <= c < |df2.columns| ==>
              if df2.cells[row][c].Some? && !CellEquals(df1.cells[row][c], df2.cells[row][c])
              then r.value.diff.cells[row][c] == df2.cells[row][c]
              else r.value.diff.cells[row][c].None?
  {
    if df1.Shape() != df2.Shape() then Err(ShapeMismatch)
    else if !SameLabels(df1, df2) then Err(LabelMismatch)
    else
      var diff := Frame(df2.index, df2.columns,
                        seq(|df2.index|, row requires 0 <= row < |df2.index| =>
                          seq(|df2.columns|, c requires 0 <= c < |df2.columns| =>
                            KeepIfDifferent(df1.cells[row][c], df2.cells[row][c]))));
      var styles := HighlightDiff(df2, diff, DefaultColor);
      Ok(Outcome(diff, styles.value))
  }

  /** The Styler returned with the difference highlights exactly the cells
      where df2 holds a value that df1 does not hold at that position; a cell
      missing in df2 is never highlighted. */
  lemma HighlightsExactlyChangedCells<T>(df1: Frame<T>, df2: Frame<T>)
    requires df1.WellFormed() && df2.WellFormed() && SameLabels(df1, df2)
    ensures CompareDataFrames(df1, df2).Ok?
    ensures var styles := CompareDataFrames(df1, df2).value.styles;
            && styles.WellFormed() && SameLabels(styles, df2)
            && forall row, c :: 0 <= row < |df2.index| && 0 <= c < |df2.columns| ==>
                 if df2.cells[row][c].Some? && !CellEquals(df1.cells[row][c], df2.cells[row][c])
                 then styles.cells[row][c] == Some(Highlight(DefaultColor))
                 else styles.cells[row][c] == Some("")
  {
    var out := CompareDataFrames(df1, df2).value;
    assert out.styles == HighlightDiff(df2, out.diff, DefaultColor).value;
    assert Highlight(DefaultColor) != "";
    forall row, c | 0 <= row < |df2.index| && 0 <= c < |df2.columns|
      ensures if df2.cells[row][c].Some? && !CellEquals(df1.cells[row][c], df2.cells[row][c])
              then out.styles.cells[row][c] == Some(Highlight(DefaultColor))
              else out.styles.cells[row][c] == Some("")
    {
      if df2.cells[row][c].Some? && !CellEquals(df1.cells[row][c], df2.cells[row][c]) {
        assert CellEquals(df2.cells[row][c], out.diff.cells[row][c]);
      } else {
        assert !CellEquals(df2.cells[row][c], out.diff.cells[row][c]);
      }
    }
  }

  /** Comparing a frame with itself succeeds with an all-missing difference
      table: a present cell equals itself, and a missing cell stays missing. */
  lemma CompareWithItself<T>(f: Frame<T>)
    requires f.WellFormed()
    ensures CompareDataFrames(f, f).Ok?
    ensures forall row, c :: 0 <= row < |f.index| && 0 <= c < |f.columns| ==>
              CompareDataFrames(f, f).value.diff.cells[row][c].None?
  {
  }

  /** Laying the present difference cells over df1 gives back df2 wherever df2
      has no missing cell: the difference table loses nothing but the NaNs of df2. */
  function Patch<T>(base: Frame<T>, diff: Frame<T>): (f: Frame<T>)
    requires base.WellFormed() && diff.WellFormed() && SameLabels(base, diff)
    ensures f.WellFormed() && SameLabels(f, base)
  {
    Frame(base.index, base.columns,
          seq(|base.index|, row requires 0 <= row < |base.index| =>
            seq(|base.columns|, c requires 0 <= c < |base.columns| =>
              if diff.cells[row][c].Some? then diff.cells[row][c] else base.cells[row][c])))
  }

  /** Round trip: df1 patched with diff(df1, df2) is df2, when df2 has no
      missing cell. */
  lemma PatchRecoversSecondFrame<T>(df1: Frame<T>, df2: Frame<T>)
    requires df1.WellFormed() && df2.WellFormed() && SameLabels(df1, df2)
    requires forall row, c :: 0 <= row < |df2.index| && 0 <= c < |df2.columns| ==> df2.cells[row][c].Some?
    ensures Patch(df1, CompareDataFrames(df1, df2).value.diff) == df2
  {
    var p := Patch(df1, CompareDataFrames(df1, df2).value.diff);
    assert forall row :: 0 <= row < |df2.index| ==> p.cells[row] == df2.cells[row];
  }

  /** Two generated grids of the same size that double different rows differ
      exactly on those two rows, in every column except column 0 (0 doubled is 0). */
  lemma GeneratedGridsDiffer(n: nat, a: nat, b: nat)
    requires a < n && b < n && a != b
    ensures ProduceDataFrameGuarded(n, a).Ok? && ProduceDataFrameGuarded(n, b).Ok?
    ensures var df1 := ProduceDataFrameGuarded(n, a).value;
            var df2 := ProduceDataFrameGuarded(n, b).value;
            && CompareDataFrames(df1, df2).Ok?
            && forall row, c :: 0 <= row < n && 0 <= c < n ==>
                 (CompareDataFrames(df1, df2).value.diff.cells[row][c].Some? <==> (row == a || row == b) && c != 0)
  {
    var df1 := ProduceDataFrameGuarded(n, a).value;
    var df2 := ProduceDataFrameGuarded(n, b).value;
    assert df1.index == df2.index;
    assert df1.columns == df2.columns;
  }

  // ---------------------------------------------------------------------
  // UnitTestExample
  // ---------------------------------------------------------------------

  /** testDataFrameProduction: a 5 by 5 grid doubling row 3 is produced. */
  lemma TestDataFrameProduction()
    ensures ProduceDataFrame(5, 3).Ok?
    ensures ProduceDataFrame(5, 3).value.Shape() == (5, 5)
  {
  }

  /** testDataFrameProduction_Fails: row 7 of a 5 by 5 grid raises ValueError. */
  lemma TestDataFrameProductionFails()
    ensures ProduceDataFrame(5, 7).Err? && IsValueError(ProduceDataFrame(5, 7).error)
  {
  }

  /** testDataFramesDifferent: grids doubling rows 2 and 4 differ, and their
      difference table has the shape of the first. */
  lemma TestDataFramesDifferent()
    ensures ProduceDataFrame(5, 2).Ok? && ProduceDataFrame(5, 4).Ok?
    ensures ProduceDataFrame(5, 2) != ProduceDataFrame(5, 4)
    ensures var df1 := ProduceDataFrame(5, 2).value;
            var df2 := ProduceDataFrame(5, 4).value;
            && CompareDataFrames(df1, df2).Ok?
            && CompareDataFrames(df1, df2).value.diff.Shape() == df1.Shape()
  {
    var df1 := ProduceDataFrame(5, 2).value;
    var df2 := ProduceDataFrame(5, 4).value;
    assert df1.cells[2][1] != df2.cells[2][1];
    GeneratedGridsDiffer(5, 2, 4);
  }
}
