# Load-estimate table logic in Dafny

This project models the small pieces of table logic in the SHEPD load-estimate scripts. The scripts run on pandas, and these pieces sit under the Excel reading and writing:

- **Column headers** (`common_functions.py`). Every `'\n'` is stripped from the imported column names. `adjust_years` picks out the forecast-year columns: the headers that `re.match` accepts for `(\d{4})\s*[/]\s*(\d{4})`. The header names live in the `Headers` class.
- **Substation rows** (`DataFrame_Approach.py`). `determine_gsp_primary_flag` writes the `Sub_GSP` and `Sub_Primary` flags. `assign_gsp` forward-fills the GSP column. `extract_aggregate_demand` builds the `aggregate_<year>` column names.
- **Table comparison** (`DataFrame_Comparison.py`, and the identical functions of `data_comparison.py`). `produce_dataframe` builds the test grid. `compare_dataframes` builds the difference table. `highlight_diff` builds the grid of highlight styles. The `UnitTestExample` assertions become lemmas.

Tables are immutable values. A row is a record of `Option` cells. A frame has row labels, column labels and a grid of `Option` cells. A missing cell (`None`) stands for pandas' NaN. A missing cell never equals anything, not even another missing cell (`Comparison.CellEquals`). Python exceptions are the `Err` side of a `Result`.

Modules:

- `Optional`: `Option` and `Result`.
- `Sequences`: order-preserving subsequences.
- `Decimal`: digits, and decimal text for natural numbers.
- `Headers`: `common_functions.py`.
- `Substations`: `DataFrame_Approach.py`.
- `Comparison`: both comparison files.

The classification rules read only the Name and GSP columns (DataFrame_Approach.py:48 and 53). No rule reads the NRN or Voltage Ratio columns. `assign_gsp` is a plain `ffill` of the GSP column (DataFrame_Approach.py:33) and does not depend on the flags.

## Model

| member | source | states |
|---|---|---|
| Headers.StripNewlines | common_functions.py:41 | a cleaned column name contains no `'\n'`; it is a subsequence of the original that keeps every other character, with the same multiplicities |
| Headers.CleanHeaders | common_functions.py:40-41 | header clean-up keeps the number of columns and their positions; each name loses exactly its line feeds, and all other characters stay in order |
| Headers.StripNewlinesKeepsCleanName | common_functions.py:41 | a column name without a line feed is left unchanged |
| Headers.CleanHeadersIdempotent | common_functions.py:41 | cleaning already cleaned headers changes nothing |
| Headers.IsSpace | common_functions.py:61 | `\s` matches exactly the characters Python's `str.isspace` accepts; none of them is a digit or `/` |
| Headers.SkipSpaces | common_functions.py:61 | `\s*` is greedy: it consumes the longest run of Python whitespace from the given position |
| Headers.MatchesYearRange | common_functions.py:61-63 | the `r.match` test: an accepted header is at least nine characters long and starts with four digits |
| Headers.MatchesYearRangeIff | common_functions.py:54-63 | the scan accepts a header iff it starts with 4 digits, optional spaces, `/`, optional spaces and 4 digits; any text may follow (anchored at the start only, as `re.match` is) |
| Headers.AdjustYears | common_functions.py:61-65 | the result is an order-preserving subsequence of the headers; a header is in it iff it is a year header, and it keeps every year header with its original multiplicity |
| Headers.AdjustYearsEmptyIff | common_functions.py:63-65 | the result is empty, not an error, exactly when no header matches |
| Headers.AdjustYearsKeepsAll | common_functions.py:63 | a list consisting only of year headers passes the filter unchanged |
| Headers.AdjustYearsIdempotent | common_functions.py:63 | filtering the result of `adjust_years` again returns it unchanged |
| Headers.NonDigitStartIsNotYear | common_functions.py:61 | a header that is empty or starts with a non-digit (leading space, 'GSP', 'x2019/2020') is never a year header |
| Headers.CompactYearExample | common_functions.py:61 | '2019/2020' is a year header |
| Headers.SpacedYearExample | common_functions.py:61 | '2019 / 2020' is a year header: spaces may surround the slash |
| Headers.TrailingTextExample | common_functions.py:61-63 | '2019/2020 MW' is a year header: text after the second year is allowed |
| Headers.RejectedYearExamples | common_functions.py:61 | '2019-2020' and '2019/20' are not year headers |
| Headers.AdjustYearsExample | common_functions.py:61-63 | on ['Name', '2019/2020', 'x2019/2020', '2019/2020 MW'], only the two year headers are kept, in order |
| Headers.FixedHeadersAreNotYears | common_functions.py:83-98 | none of the fixed header names ('GSP', 'NRN', 'Name', 'Voltage Ratio', 'PSS/E Bus #1', 'Sub_GSP', 'Sub_Primary', 'aggregate') is taken for a forecast year |
| Substations.Classify | DataFrame_Approach.py:48-55 | on one row, only the flag cells change; Sub_GSP is True afterwards iff the row has no Name and a GSP, or it was already True; likewise Sub_Primary for a Name and no GSP; a rule that does not hold leaves its flag cell as it was |
| Substations.DetermineGspPrimaryFlag | DataFrame_Approach.py:38-57 | row count and order are kept and only the two flag columns change; Sub_GSP becomes True where Name is missing and GSP is present, Sub_Primary where Name is present and GSP is missing; every other flag cell keeps its previous value |
| Substations.FlagsOnFreshTable | DataFrame_Approach.py:48-55 | on a table without flag columns, Sub_GSP is True exactly on the rows with no Name and a GSP, and Sub_Primary exactly on the rows with a Name and no GSP; all other flag cells are missing |
| Substations.FlagsExclusive | DataFrame_Approach.py:48-55 | no row gets both flags; a row with Name and GSP both present, or both missing, gets neither |
| Substations.FlaggingIdempotent | DataFrame_Approach.py:48-55 | flagging an already flagged table changes nothing |
| Substations.NearestPresent | DataFrame_Approach.py:33 | finds the position of the last present cell among the first n cells, or -1 when all are missing |
| Substations.ForwardFill | DataFrame_Approach.py:33 | the fill keeps the length and every present cell; a cell is missing afterwards iff it and every cell above it were missing |
| Substations.ForwardFillNearestAbove | DataFrame_Approach.py:33 | a missing cell that the fill supplies takes the value of the nearest present cell above it |
| Substations.ForwardFillMissingPrefix | DataFrame_Approach.py:31-33 | after the fill, if row i's GSP is missing then rows 0..i are all missing |
| Substations.ForwardFillIdempotent | DataFrame_Approach.py:33 | forward filling a filled column changes nothing |
| Substations.AssignGsp | DataFrame_Approach.py:24-35 | the top-to-bottom scan keeps the row count and every column except GSP; its GSP column is the forward fill of the input's GSP column |
| Substations.AggregateColumnNames | DataFrame_Approach.py:66-70 | there is one name per forecast-year header, in the same order, and each is 'aggregate_' followed by that year header |
| Substations.AggregateNamesRoundTrip | DataFrame_Approach.py:70 | removing the 'aggregate_' prefix from each aggregate column name gives back its forecast year |
| Substations.AggregateColumnsKeepYears | DataFrame_Approach.py:66-72 | appending the aggregate columns to the headers does not change the forecast-year columns `adjust_years` finds |
| Decimal.NatToString | DataFrame_Comparison.py:47 | `'{}'.format(x)` of a non-negative int is a non-empty string of decimal digits with no leading zero |
| Decimal.ParseNatToString | DataFrame_Comparison.py:47 | reading back the decimal text `'{}'.format` gives for a number returns the number |
| Decimal.NatToStringInjective | DataFrame_Comparison.py:47 | different numbers have different decimal text |
| Comparison.ColumnHeader | DataFrame_Comparison.py:47 | the label of column c is 'Column ' followed by a non-empty run of decimal digits |
| Comparison.ColumnHeaderRoundTrip | DataFrame_Comparison.py:47 | each label 'Column c' can be decoded back to c, so the generated column labels are pairwise distinct |
| Comparison.PyIndex | DataFrame_Comparison.py:44 | Python list indexing reads position i, or i + len for negative i; any index outside [-len, len) raises IndexError |
| Comparison.Grid | DataFrame_Comparison.py:41-50 | the generated frame is rectangular with n rows and n columns |
| Comparison.ProduceDataFrame | DataFrame_Comparison.py:30-52 | ValueError iff row_num > dimensions; IndexError iff row_num <= dimensions and row_num is outside [-dimensions, dimensions); otherwise an n×n grid with row labels 0..n-1, column labels 'Column c', and cell (r,c) = c, or 2·c on the doubled row |
| Comparison.ProduceDataFrameGuarded | data_comparison.py:44-45 | with the guard `row_num >= dimensions`, no non-negative row_num raises IndexError; the result equals the original everywhere except row_num == dimensions |
| Comparison.GuardMissesLastRow | data_comparison.py:44-50 | row_num == dimensions passes the `>` guard and then raises IndexError, not ValueError |
| Comparison.CellEquals | DataFrame_Comparison.py:67 | cell `==` with NaN semantics: two cells are equal iff both are present and hold the same value; a missing cell equals nothing |
| Comparison.HighlightDiff | DataFrame_Comparison.py:55-71 | the style grid has the labels and shape of the full frame; a cell is 'background-color: ' + color iff the full cell and the cell to highlight are both present and equal, and '' otherwise; frames with different labels raise ValueError |
| Comparison.KeepIfDifferent | DataFrame_Comparison.py:89 | `df2.where(df2 != df1)` on one cell: the result is present iff df2's cell is present and differs from df1's cell, and then it is df2's cell |
| Comparison.CompareDataFrames | DataFrame_Comparison.py:74-94 | different shapes raise ValueError (ShapeMismatch), and same-shape frames with different labels raise pandas' ValueError (LabelMismatch); the diff has df2's labels and the shape of both inputs; a diff cell holds df2's cell iff that cell is present and not equal to df1's, and is missing otherwise |
| Comparison.HighlightsExactlyChangedCells | data_comparison.py:73-76 | the returned styles highlight exactly the cells where df2 holds a value different from df1's cell; a cell missing in df2 is never highlighted (the composition at data_comparison.py:95-98) |
| Comparison.CompareWithItself | data_comparison.py:95 | comparing a frame with itself succeeds, and its diff is missing everywhere |
| Comparison.PatchRecoversSecondFrame | DataFrame_Comparison.py:88-89 | when df2 has no missing cell, laying the present diff cells over df1 gives back df2: only df2's own NaNs are lost |
| Comparison.GeneratedGridsDiffer | DataFrame_Comparison.py:161-165 | two n×n generated grids that double rows a ≠ b differ exactly on rows a and b, in every column except column 0 |
| Comparison.TestDataFrameProduction | DataFrame_Comparison.py:130-137 | produce_dataframe(5, 3) succeeds with shape (5, 5) |
| Comparison.TestDataFrameProductionFails | DataFrame_Comparison.py:139-142 | produce_dataframe(5, 7) raises ValueError |
| Comparison.TestDataFramesDifferent | DataFrame_Comparison.py:144-156 | the grids doubling rows 2 and 4 are different; comparing them succeeds with a diff shaped like the first |

## Findings

| source | as written | input that shows it | evidently intended | confidence | as-written member | corrected member |
|---|---|---|---|---|---|---|
| data_comparison.py:44-50 (same at DataFrame_Comparison.py:38-44) | the guard rejects only `row_num > dimensions` | `produce_dataframe(5, 5)` passes the guard, and `generic_data[5]` then raises IndexError | every row_num >= dimensions is rejected with the ValueError 'Target row … greater than dimensions' (`>=`), so no non-negative row_num raises IndexError | medium, not executed | Comparison.GuardMissesLastRow (on Comparison.ProduceDataFrame) | Comparison.ProduceDataFrameGuarded |

`Comparison.GeneratedGridsDiffer` uses the corrected member. The unit-test lemmas use the code as written, which is what the tests exercise. The two agree on every input the tests use.

## Left out

- Excel and file I/O is not modelled: `pd.read_excel`, `pd.ExcelWriter`, `write_dataframe`, `excel_data_comparison_maker`, `get_local_file_path` and the `__main__` blocks. They hold no table logic.
- The pandas `Styler` is not modelled. `df2.style.apply` applies `highlight_diff` lazily when the table is rendered. The model returns the style grid that call produces, as the `styles` half of `CompareDataFrames`. The `print(attr)` in `highlight_diff` is a side effect and is left out.
- `extract_aggregate_demand` unconditionally raises SyntaxError at DataFrame_Approach.py:78. Its loop is unreachable, and it returns `df_raw` rather than the concatenated frame. Only the aggregate column names (lines 66-70) are modelled. The same raise stops the `__main__` block before it reaches `assign_gsp`.
- `determine_gsp_primary_flag` returns the module-global `df` instead of `df_raw` (DataFrame_Approach.py:57). The function updates `df_raw` in place. In the only caller the global is that same object, so the model returns the updated table. A caller in another module would get a NameError; that is not modelled.
- Substations.AssignGsp: models `df_raw[gsp].ffill(inplace=True)` as updating the table. That is what pandas does without copy-on-write. Under copy-on-write this chained in-place call leaves `df_raw` unchanged.
- Substations.Row always has the Name, GSP, NRN and Voltage Ratio columns. The KeyError pandas raises when a column is absent is not modelled.
- Headers.IsYearHeader: `\d` is modelled as the ASCII digits 0-9. Python's `\d` on str patterns also accepts other Unicode decimal digits. `\s` is modelled exactly, as the characters `str.isspace` accepts.
- Headers.MatchesYearRange: its own contract states only that an accepted header has at least nine characters and starts with four digits. The exact set it accepts is proved separately in Headers.MatchesYearRangeIff. Stating the full pattern on the function itself makes every proof about `adjust_years` expensive.
- Headers.AdjustYears: returns a sequence. Python's `filter` returns a one-shot iterator, which `extract_aggregate_demand` consumes at line 70 and reads again only in its unreachable loop.
- Headers.CleanHeaders: column names are strings. The NaN that `.str.replace` yields for a non-string column name is not modelled, nor is the TypeError `re.match` raises on one.
- Comparison.ProduceDataFrame: takes integer arguments. The TypeError for other argument types is not modelled.
- Cell values are exact Dafny values, with no floating-point arithmetic. pandas turns integer columns into floats in `where`. That does not change which cells are equal, so it is not modelled.
- Bus-share redistribution, missing-year interpolation, diversity factors and seasonal fills are not part of this model. They do not appear in these files and rely on floating-point arithmetic.
- The `unittest` harness is not modelled. Its assertions appear as lemmas.
