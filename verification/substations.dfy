/** Substation rows of the load-estimate sheet (DataFrame_Approach.py):
    GSP / Primary flagging, forward fill of the GSP column, and the names of
    the aggregate-demand columns.
 */
module Substations {
  import opened Optional
  import opened Headers

  /** One worksheet row. Every cell may be missing (NaN). `demand` holds the
      remaining cells, such as the per-year forecast values, which the
      operations here carry along untouched. `subGsp` and `subPrimary` are the
      flag columns: missing until a rule sets them to True. */
  datatype Row = Row(
    name: Option<string>,
    gsp: Option<string>,
    nrn: Option<string>,
    voltage: Option<string>,
    demand: seq<Option<real>>,
    subGsp: Option<bool>,
    subPrimary: Option<bool>)

  // ---------------------------------------------------------------------
  // determine_gsp_primary_flag
  // ---------------------------------------------------------------------

  /** The GSP rule: no Name, but a GSP entry. */
  predicate IsGspRow(row: Row) {
    row.name.None? && row.gsp.Some?
  }

  /** The Primary rule: a Name, but no GSP entry. */
  predicate IsPrimaryRow(row: Row) {
    row.name.Some? && row.gsp.None?
  }

  /** A row on which neither flag column has been written yet. */
  predicate Unflagged(row: Row) {
    row.subGsp.None? && row.subPrimary.None?
  }

  /** Applies both rules to one row: a rule that holds writes True into its
      flag column, a rule that does not hold leaves that column as it was. */
  function Classify(row: Row): (r: Row)
    ensures r.(subGsp := row.subGsp, subPrimary := row.subPrimary) == row
    ensures r.subGsp == Some(true) <==> IsGspRow(row) || row.subGsp == Some(true)
    ensures r.subPrimary == Some(true) <==> IsPrimaryRow(row) || row.subPrimary == Some(true)
    ensures !IsGspRow(row) ==> r.subGsp == row.subGsp
    ensures !IsPrimaryRow(row) ==> r.subPrimary == row.subPrimary
  {
    row.(subGsp := if IsGspRow(row) then Some(true) else row.subGsp,
         subPrimary := if IsPrimaryRow(row) then Some(true) else row.subPrimary)
  }

  /** The flagging pass over the whole table. */
  function DetermineGspPrimaryFlag(rows: seq<Row>): (flagged: seq<Row>)
    ensures |flagged| == |rows|
    ensures forall i :: 0 <= i < |rows| ==>
              flagged[i].(subGsp := rows[i].subGsp, subPrimary := rows[i].subPrimary) == rows[i]
    ensures forall i :: 0 <= i < |rows| ==>
              (rows[i].name.None? && rows[i].gsp.Some? ==> flagged[i].subGsp == Some(true))
    ensures forall i :: 0 <= i < |rows| ==>
              (rows[i].name.Some? || rows[i].gsp.None? ==> flagged[i].subGsp == rows[i].subGsp)
    ensures forall i :: 0 <= i < |rows| ==>
              (rows[i].name.Some? && rows[i].gsp.None? ==> flagged[i].subPrimary == Some(true))
    ensures forall i :: 0 <= i < |rows| ==>
              (rows[i].name.None? || rows[i].gsp.Some? ==> flagged[i].subPrimary == rows[i].subPrimary)
  {
    seq(|rows|, i requires 0 <= i < |rows| => Classify(rows[i]))
  }

  /** On a freshly read table, Sub_GSP is True exactly on the rows with no Name
      and a GSP entry, Sub_Primary exactly on the rows with a Name and no GSP
      entry; every other flag cell stays missing. */
  lemma FlagsOnFreshTable(rows: seq<Row>)
    requires forall i :: 0 <= i < |rows| ==> Unflagged(rows[i])
    ensures forall i :: 0 <= i < |rows| ==>
              && (DetermineGspPrimaryFlag(rows)[i].subGsp == Some(true) <==> rows[i].name.None? && rows[i].gsp.Some?)
              && (DetermineGspPrimaryFlag(rows)[i].subGsp.None? <==> !(rows[i].name.None? && rows[i].gsp.Some?))
              && (DetermineGspPrimaryFlag(rows)[i].subPrimary == Some(true) <==> rows[i].name.Some? && rows[i].gsp.None?)
              && (DetermineGspPrimaryFlag(rows)[i].subPrimary.None? <==> !(rows[i].name.Some? && rows[i].gsp.None?))
  {
  }

  /** On a freshly read table no row gets both flags, and a row with both
      Name and GSP present, or both missing, gets neither. */
  lemma FlagsExclusive(rows: seq<Row>)
    requires forall i :: 0 <= i < |rows| ==> Unflagged(rows[i])
    ensures forall i :: 0 <= i < |rows| ==>
              !(DetermineGspPrimaryFlag(rows)[i].subGsp.Some? && DetermineGspPrimaryFlag(rows)[i].subPrimary.Some?)
    ensures forall i :: 0 <= i < |rows| && rows[i].name.Some? == rows[i].gsp.Some? ==>
              Unflagged(DetermineGspPrimaryFlag(rows)[i])
  {
  }

  /** Flagging a second time changes nothing: the rules read only Name and
      GSP, which flagging never writes. */
  lemma FlaggingIdempotent(rows: seq<Row>)
    ensures DetermineGspPrimaryFlag(DetermineGspPrimaryFlag(rows)) == DetermineGspPrimaryFlag(rows)
  {
  }

  // ---------------------------------------------------------------------
  // assign_gsp: forward fill of the GSP column
  // ---------------------------------------------------------------------

  /** The GSP column of a table. */
  function GspColumn(rows: seq<Row>): seq<Option<string>> {
    seq(|rows|, i requires 0 <= i < |rows| => rows[i].gsp)
  }

  /** Position of the last present cell among the first `n` cells of `col`,
      or -1 when all of them are missing. */
  function NearestPresent<T>(col: seq<Option<T>>, n: nat): (j: int)
    requires n <= |col|
    ensures -1 <= j < n
    ensures j >= 0 ==> col[j].Some?
    ensures forall k :: j < k < n ==> col[k].None?
  {
    if n == 0 then -1
    else if col[n - 1].Some? then n - 1
    else NearestPresent(col, n - 1)
  }

  /** The last present value among the first `n` cells of `col`, or missing
      when all of them are missing. */
  function LastPresent<T>(col: seq<Option<T>>, n: nat): Option<T>
    requires n <= |col|
  {
    var j := NearestPresent(col, n);
    if j < 0 then None else col[j]
  }

  /** Reference meaning of a forward fill: each cell becomes the last present
      value at or above it. */
  function ForwardFill<T>(col: seq<Option<T>>): (filled: seq<Option<T>>)
    ensures |filled| == |col|
    ensures forall i {:trigger filled[i]} :: 0 <= i < |col| && col[i].Some? ==> filled[i] == col[i]
    ensures forall i :: 0 <= i < |col| ==>
              (filled[i].None? <==> forall k :: 0 <= k <= i ==> col[k].None?)
  {
    seq(|col|, i requires 0 <= i < |col| => LastPresent(col, i + 1))
  }

  /** A missing cell that the fill supplies takes the value of the nearest
      present cell above it. */
  lemma {:induction false} ForwardFillNearestAbove<T>(col: seq<Option<T>>, i: nat)
    requires i < |col| && col[i].None? && ForwardFill(col)[i].Some?
    ensures exists j :: 0 <= j < i && col[j] == ForwardFill(col)[i] && forall k :: j < k <= i ==> col[k].None?
  {
    var j := NearestPresent(col, i + 1);
    assert ForwardFill(col)[i] == LastPresent(col, i + 1);
    NearestPresentBelow(col, i, j);
  }

  /** The nearest present position is a witness of the nearest-above property. */
  lemma NearestPresentBelow<T>(col: seq<Option<T>>, i: nat, j: int)
    requires i < |col| && col[i].None? && j == NearestPresent(col, i + 1) && j >= 0
    ensures 0 <= j < i && col[j].Some? && forall k :: j < k <= i ==> col[k].None?
  {
  }

  /** After a forward fill, a missing cell has only missing cells above it:
      the missing cells form a leading run. */
  lemma ForwardFillMissingPrefix<T>(col: seq<Option<T>>, i: nat)
    requires i < |col|
    requires ForwardFill(col)[i].None?
    ensures forall k :: 0 <= k <= i ==> ForwardFill(col)[k].None?
  {
  }

  /** Forward filling a column a second time changes nothing. */
  lemma ForwardFillIdempotent<T>(col: seq<Option<T>>)
    ensures ForwardFill(ForwardFill(col)) == ForwardFill(col)
  {
    var once := ForwardFill(col);
    var twice := ForwardFill(once);
    forall i | 0 <= i < |col|
      ensures twice[i] == once[i]
    {
      if once[i].None? {
        assert forall k :: 0 <= k <= i ==> once[k].None?;
      }
    }
  }

  /** `assign_gsp`: fills every missing GSP cell with the GSP above it, scanning
      the table top to bottom; all other columns are left as they are. */
  method AssignGsp(rows: seq<Row>) returns (filled: seq<Row>)
    ensures |filled| == |rows|
    ensures forall i :: 0 <= i < |rows| ==> filled[i].(gsp := rows[i].gsp) == rows[i]
    ensures GspColumn(filled) == ForwardFill(GspColumn(rows))
  {
    ghost var col := GspColumn(rows);
    var last: Option<string> := None;
    filled := [];
    var i := 0;
    while i < |rows|
      invariant 0 <= i <= |rows|
      invariant |filled| == i
      invariant last == LastPresent(col, i)
      invariant forall k :: 0 <= k < i ==> filled[k] == rows[k].(gsp := LastPresent(col, k + 1))
    {
      if rows[i].gsp.Some? {
        last := rows[i].gsp;
      }
      assert last == LastPresent(col, i + 1);
      filled := filled + [rows[i].(gsp := last)];
      i := i + 1;
    }
    ghost var reference := ForwardFill(col);
    assert forall k :: 0 <= k < |rows| ==> reference[k] == LastPresent(col, k + 1);
    assert forall k :: 0 <= k < |rows| ==> GspColumn(filled)[k] == reference[k];
  }

  // ---------------------------------------------------------------------
  // extract_aggregate_demand: names of the aggregate columns
  // ---------------------------------------------------------------------

  /** Prefix '{aggregate}_' of every aggregate-demand column. */
  const AggregatePrefix: string := Aggregate + "_"

  /** One aggregate column name per forecast-year header, in the same order. */
  function AggregateColumnNames(headers: seq<string>): (names: seq<string>)
    ensures |names| == |AdjustYears(headers)|
    ensures forall i :: 0 <= i < |names| ==>
              && |names[i]| == |AggregatePrefix| + |AdjustYears(headers)[i]|
              && names[i][..|AggregatePrefix|] == AggregatePrefix
              && names[i][|AggregatePrefix|..] == AdjustYears(headers)[i]
  {
    var years := AdjustYears(headers);
    seq(|years|, i requires 0 <= i < |years| => AggregatePrefix + years[i])
  }

  /** The year an aggregate column stands for, or missing for any other name. */
  function YearOfAggregate(name: string): Option<string> {
    if |name| >= |AggregatePrefix| && name[..|AggregatePrefix|] == AggregatePrefix
    then Some(name[|AggregatePrefix|..])
    else None
  }

  /** Each aggregate column name leads back to its forecast year. */
  lemma AggregateNamesRoundTrip(headers: seq<string>)
    ensures forall i :: 0 <= i < |AggregateColumnNames(headers)| ==>
              YearOfAggregate(AggregateColumnNames(headers)[i]) == Some(AdjustYears(headers)[i])
  {
  }

  /** Adding the aggregate columns after the existing ones leaves the list of
      forecast-year columns unchanged: no aggregate name matches the year pattern. */
  lemma AggregateColumnsKeepYears(headers: seq<string>)
    ensures AdjustYears(headers + AggregateColumnNames(headers)) == AdjustYears(headers)
  {
    var names := AggregateColumnNames(headers);
    forall h | h in names
      ensures !IsYearHeader(h)
    {
      var i :| 0 <= i < |names| && names[i] == h;
      assert h[0] == AggregatePrefix[0];
      NonDigitStartIsNotYear(h);
    }
    AdjustYearsAppend(headers, names);
    AdjustYearsEmptyIff(names);
  }
}
