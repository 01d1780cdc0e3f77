# Header detection and column filtering for a Google Sheets profiler

The application lists a service account's spreadsheets and loads a chosen
worksheet into a data frame. It then prepares a profiling report. The model
covers the three pieces of logic in that pipeline that the application
writes itself:

* **Header detection** (`encontrar_mejor_header`). The detector scans the
  first five rows. A row scores (cells whose stripped text is non-empty) ×
  (average raw cell length). The answer is the earliest row with the highest
  positive score, or none.
* **Header promotion** (the body of `cargar_datos`). Empty raw values give an
  empty frame. When a header row `h` is found, its texts become the column
  labels and the rows after it become the data, renumbered from zero.
  Otherwise the raw values are used as they are, with columns labelled
  `0, 1, ...`.
* **Column filter and report** (the front of `generar_reporte`). An empty
  frame (no rows or no columns) gets no report. Otherwise the filter works
  on labels, as pandas does. A label that belongs to one column is dropped
  when that column has a list, dict, tuple or set cell. The kept labels are
  then looked up again, and each lookup selects every column carrying that
  label. The dropped labels are joined into a warning. When a dropped column is labelled by position (an
  integer, because no header was found), that join raises a `TypeError`;
  the model returns `LabelJoinError` for it. Loaded cells are always text,
  so this cannot happen to a frame that `Table.Load` produced.

Modules:

* `Wrappers`: `Option`, which stands for Python's `None`.
* `Text`: Python's whitespace set and `str.strip()`.
* `Header`: the row measures and the integer score. It has a functional scan
  (`ScanScores`/`FindHeader`) and the loop version (`FindBestHeader`). It also
  has `AveragedScan`, which keeps the division by the row width but works
  over exact reals rather than floating point.
* `Table`: cells, labels, frames and `Load`.
* `Report`: the column filter and report generation. `FilterColumns` is a
  filter by column position, kept as the reference. `LabelFilter` is the
  filter by label that report generation uses. The two agree whenever the
  labels are distinct (`LabelFilterMatchesPositional`).

A note on the integer score: all rows of a frame have the same width `w`.
Over exact reals, the averaged score `nonEmpty * (totalLen / w)` therefore
orders rows the same way as `nonEmpty * totalLen`, and is positive exactly
when that product is. `FindHeaderMatchesAveraged` proves that both scans
pick the same row over exact reals. The program computes in binary floating
point, where rounding can break an exact tie toward a later row (see
"## Left out"). So the rule that ties go to the earliest row is a property of
the model, and not always of the program.

Where the definitions come from:

* `Header.NonEmptyCount` is the count at line 101, and `Text.Strip` is the
  `strip()` call on that line.
* `Header.TotalLen` is the sum of lengths at line 102.
* `Header.AveragedFindHeader` is the detector at lines 95-109, over exact
  reals.
* `Table.FromValues` is the frame built at line 78.
* `Table.Promote` is the header promotion at lines 82-86.
* `Report.CompatibleColumn` is the test at line 117 that no cell of a
  column is a list, dict, tuple or set.
* `Report.LabelPasses` is the same test applied to `df[col]` by label. A
  repeated label yields several columns at once, and the test then never
  sees a collection.
* `Report.ValidLabels` is `columnas_validas` at lines 114-118.
* `Report.ColumnsFor` is the lookup `df[columnas_validas]` at line 119.
* `Report.Select` is the selection of columns by position. It is what
  `df[...]` selects once the lookup has found the columns.

Four details of the code's behaviour that a quick reading can miss:

* Promotion drops all `h + 1` rows up to and including the header, not one
  row.
* "Empty" for the report means pandas' `empty`: no rows *or* no columns. So
  a sheet whose header is its last row loads fine but gets no report.
* Rows with no cells make the detector divide by zero. The load's error
  handler then returns an empty frame.
* A header row that repeats a text (two blank header cells, for instance)
  gives one label to several columns. Such a label always passes the
  filter, even over a column of lists. The lookup then selects all of its
  columns once for each time the label occurs: each of the `k` columns
  carrying it is kept `k` times (`Report.LabelFilterCount`), so the label
  reaches the profiler `k * k` times. The sheet `name`, `name` over
  `a`, `b` is profiled as four columns (`Report.DuplicateHeaderExample`).

## Model

| member | source | states |
|---|---|---|
| `Text.StripLeftDropsLeadingSpace` | AnalisisDatos.py:101 | `lstrip` removes exactly the leading run of whitespace: the rest is a suffix that does not start with whitespace |
| `Text.StripRightDropsTrailingSpace` | AnalisisDatos.py:101 | `rstrip` removes exactly the trailing run of whitespace |
| `Text.StripEmptyIffBlank` | AnalisisDatos.py:101 | a stripped cell is `""` if and only if every character of it is whitespace |
| `Header.NonEmptyCountZeroIffBlank` | AnalisisDatos.py:101 | a row counts no non-empty cells if and only if every cell is whitespace only |
| `Header.NonEmptyCountAtMostTotalLen` | AnalisisDatos.py:101-102 | each counted cell has at least one character, so the count never exceeds the total raw length |
| `Header.NonEmptyCountAppend` | AnalisisDatos.py:101 | the count of non-empty cells is a sum over cells: it adds up over concatenated rows |
| `Header.TotalLenAppend` | AnalisisDatos.py:102 | the total raw length is a sum over cells: it adds up over concatenated rows |
| `Header.WhitespaceCellOnlyAddsLength` | AnalisisDatos.py:101-102 | inserting a whitespace-only cell anywhere leaves the non-empty count unchanged and adds its full length to the total length |
| `Header.Score` | AnalisisDatos.py:101-103 | a row's score is zero if and only if the row is blank |
| `Header.ScanScores` | AnalisisDatos.py:96-107 | after scanning `n` scores, the best position is the earliest one with the greatest positive score, or none when all scores are zero; the tracked best score is that position's score, or 0 |
| `Header.FindHeader` | AnalisisDatos.py:95-109 | the answer lies below `min(max_filas, len(rows))`, has a positive score at least every scanned score and strictly above every earlier score; `None` means all scanned scores are zero |
| `Header.EarliestMaxUnique` | AnalisisDatos.py:103-107 | the earliest-arg-max description admits one position only |
| `Header.BestHeaderUnique` | AnalisisDatos.py:103-107 | the description of the detector's answer admits one answer only |
| `Header.NoHeaderIffBlank` | AnalisisDatos.py:96-109 | no header is found if and only if every scanned row is blank (so also for a table with no rows) |
| `Header.IgnoresRowsPastLimit` | AnalisisDatos.py:95-99 | two tables that agree on the scanned rows get the same answer: rows at or past the limit play no part |
| `Header.SingleNonBlankRowChosen` | AnalisisDatos.py:99-107 | when exactly one scanned row has visible text, that row is the header |
| `Header.AveragedScoreIsScaled` | AnalisisDatos.py:101-103 | over exact reals, the averaged score (with the division by the width) is the integer score divided by the width |
| `Header.AveragedScanAgrees` | AnalisisDatos.py:96-107 | when the scanned rows have one positive width, the averaged scan over exact reals and the integer scan pick the same row, with best scores in ratio 1 : width |
| `Header.FindHeaderMatchesAveraged` | AnalisisDatos.py:95-109 | when the scanned rows have one positive width, the averaged detector over exact reals and the integer detector give the same answer |
| `Header.MeasureRow` | AnalisisDatos.py:101-102 | the cell-by-cell loop yields the row's non-empty count and total raw length |
| `Header.ScoreRow` | AnalisisDatos.py:101-103 | the computed score is the row score, and it is zero if and only if the row is blank |
| `Header.FindBestHeader` | AnalisisDatos.py:95-109 | the loop, which counts cells one by one, returns the earliest row with the greatest positive score (or none), equal to the functional detector |
| `Table.Load` | AnalisisDatos.py:76-92 | empty values or rows with no cells give an empty frame; with no header the frame holds the values unchanged under labels `0..w-1`; with header `h` the labels are row `h`'s texts and the data are rows `h+1..` in order, `len - h - 1` of them; every cell is text |
| `Table.LoadRoundTripWithoutHeader` | AnalisisDatos.py:78-89 | with no header, reading the frame's cells back gives exactly the raw values |
| `Table.LoadRoundTripWithHeader` | AnalisisDatos.py:81-86 | with header `h`, the labels followed by the frame's rows read back give exactly the raw values from row `h` on |
| `Table.LoadDropsAtMostLeadingRows` | AnalisisDatos.py:79-86 | a load keeps at least `len - 5` rows, and keeps all rows if and only if no header was found |
| `Table.LoadedFrameEmptyIff` | AnalisisDatos.py:76-92 | the loaded frame is empty if and only if there were no values, the rows had no cells, or the header is the last row |
| `Report.CompatibleFrom` | AnalisisDatos.py:115-118 | the columns from `c` on that hold no collection cell, each exactly once, in increasing column order |
| `Report.FilterColumns` | AnalisisDatos.py:115-122 | the filter by column position, which is what the code does when labels are distinct: a column is kept if and only if none of its cells is a collection; kept columns keep their order and contents; no collection cell remains; the excluded labels and the kept labels are disjoint and together make up the original labels |
| `Report.ExcludedIffIncompatible` | AnalisisDatos.py:115-122 | with distinct labels, a column's label is reported as excluded if and only if one of its cells holds a collection |
| `Report.PassingFrom` | AnalisisDatos.py:114-118 | the columns from `c` on whose label passes the test, each once, in strictly increasing column order |
| `Report.MatchingFrom` | AnalisisDatos.py:119 | the columns from `c` on that carry a given label, each once, in increasing order |
| `Report.ColumnsFor` | AnalisisDatos.py:119 | looking up a list of labels selects only columns whose label is among the keys, and every such column |
| `Report.MatchingFromCount` | AnalisisDatos.py:119 | looking up one label from `c` on selects a column once if it is at or past `c` and carries the label, and never otherwise |
| `Report.ColumnsForCount` | AnalisisDatos.py:119 | looking up a list of labels selects each column exactly as many times as its label occurs among the keys |
| `Report.ColumnsForAppend` | AnalisisDatos.py:119 | the lookup goes key by key: looking up `a + b` selects the columns for `a` and then those for `b`, and one key selects its columns in column order |
| `Report.LabelsAtCount` | AnalisisDatos.py:114-118 | reading the labels at an increasing list of columns that includes every column from `c` on carrying `l` finds `l` exactly as often as those columns carry it |
| `Report.PassingLabelCount` | AnalisisDatos.py:114-118 | a label all of whose columns pass occurs among the valid labels once for every column carrying it |
| `Report.SharedLabelPasses` | AnalisisDatos.py:114-118 | when a column passes the test, every column carrying the same label passes too |
| `Report.SelectedIffPasses` | AnalisisDatos.py:114-119 | a column is selected by the lookup of the valid labels if and only if its own label passes the test |
| `Report.SelectedLabels` | AnalisisDatos.py:114-119 | the selected columns carry exactly the valid labels |
| `Report.KeptCount` | AnalisisDatos.py:114-119 | the lookup of the valid labels selects a passing column once for every column carrying its label, and a failing column never |
| `Report.UnselectedLabel` | AnalisisDatos.py:114-122 | a label is missing from the valid labels if and only if it belongs to a single column holding a collection |
| `Report.LabelFilter` | AnalisisDatos.py:114-122 | a column is profiled if and only if its label passes the test (a repeated label always passes); the profiled frame holds those columns' labels and cells; a label is excluded if and only if it belongs to a single column holding a collection; the excluded and profiled labels are disjoint and together make up the frame's labels |
| `Report.LabelFilterCount` | AnalisisDatos.py:114-122 | the filter by label keeps a passing column once for every column carrying its label, and a failing column not at all |
| `Report.PassingIsCompatible` | AnalisisDatos.py:114-118 | with distinct labels, the columns whose label passes are exactly the columns without collection cells |
| `Report.MatchingDistinct` | AnalisisDatos.py:119 | with distinct labels, looking up a column's label finds that column alone |
| `Report.LookupDistinct` | AnalisisDatos.py:119 | with distinct labels, looking up the labels of some columns gives back exactly those columns, in the same order |
| `Report.LabelFilterMatchesPositional` | AnalisisDatos.py:114-122 | with distinct labels, the filter by label and the filter by position agree on the kept columns, the frame and the excluded labels |
| `Report.TwoColumnsOneLabelKept` | AnalisisDatos.py:114-122 | two columns under one label are both kept, whatever they hold, nothing is excluded, and the lookup selects columns `0, 1, 0, 1` |
| `Report.TwoColumnsOneLabel` | AnalisisDatos.py:114-119 | the filtered frame of two columns under one label carries that label four times, and each row twice over, side by side |
| `Report.ScalarFrameUnchanged` | AnalisisDatos.py:115-122 | a frame without collection cells passes the filter unchanged, with nothing excluded |
| `Report.AllColumnsKept` | AnalisisDatos.py:115-118 | a kept-column list that contains every column is the full index list `0..n-1` |
| `Report.GenerateReport` | AnalisisDatos.py:112-134 | there is no report if and only if the frame is empty; the warning's join fails if and only if an excluded label is a position; otherwise the profile holds exactly the frame filtered by label and its excluded labels, all of them text; the excluded and profiled labels make up the frame's labels; with distinct labels the profile equals the filter by position and holds no collection cell; the title is `Reporte: <document> - <sheet>` |
| `Report.JoinFailsIffPositionalColumnDropped` | AnalisisDatos.py:114-124 | with distinct labels, the join fails if and only if the frame is not empty and some column labelled by position holds a collection |
| `Report.RepeatedLabelReport` | AnalisisDatos.py:112-124 | a non-empty frame of two columns under one label gets a report that profiles the label four times and each row twice over, and excludes nothing, even when a column holds a list |
| `Report.RepeatedHeaderReport` | AnalisisDatos.py:112-124 | a loaded sheet two cells wide whose detected header repeats one text, with a row below it, is profiled as four columns, each loaded row twice over |
| `Report.DuplicateHeaderScores` | AnalisisDatos.py:101-103 | the row `name`, `name` has integer score 16 and the row `a`, `b` has integer score 4; these are the program's scores 8.0 and 2.0 multiplied by the row width 2, which is factored out |
| `Report.DuplicateHeaderFound` | AnalisisDatos.py:95-109 | the detector picks row 0 of `name`, `name` over `a`, `b` |
| `Report.DuplicateHeaderExample` | AnalisisDatos.py:112-124 | the sheet `name`, `name` over `a`, `b` loads as two columns and is profiled as four, each loaded row twice over |
| `Report.NamedColumnsJoin` | AnalisisDatos.py:121-124 | when every column has a text label, the join never fails |
| `Report.PositionalListColumnFails` | AnalisisDatos.py:121-124 | a one-column frame labelled `0` whose cell is a list fails at the join |
| `Report.LoadedSheetReport` | AnalisisDatos.py:112-124 | for loaded worksheet values there is no report if and only if the load is empty; the join never fails; nothing is excluded and every loaded column is profiled, since loaded cells are always text; with distinct labels the profile is the loaded frame itself |

## Left out

- The interactive UI (page setup, sidebar selectors, button, messages and `st.stop`, lines 8-9 and 138-197). It is presentation, not logic.
- Authentication and the spreadsheet client (lines 17-66 and 70-74). These are network calls through foreign clients. The fetched cell values are the input `data` of `Table.Load`.
- The caching decorators. They memoise results and have no observable effect on them.
- The profiling engine and its HTML rendering (lines 125-134). This is an opaque third-party library. `Report.Profile` records the title and the filtered frame handed to it, together with the excluded labels, which go only to the warning at lines 123-124.
- Header.AveragedScore: computes over exact reals. Python's floating-point rounding of the division and the product is not modelled. Rounding can break an exact tie toward a later row. Take width 10, with row 0 = `a`, `b`, `c` followed by seven empty cells, and row 1 = `abcdefghi` followed by nine empty cells. Both integer scores are 9, and `Header.FindHeader` picks row 0. In binary64, `3 * (3 / 10)` is `0.8999999999999999`, which is below `1 * (9 / 10)` = `0.9`, so the program picks row 1. The earliest-tie rule in `Header.FindHeader`, `Header.FindBestHeader` and `Header.FindHeaderMatchesAveraged` holds for the model, not always for the program.
- Header.FindHeaderMatchesAveraged: relates the integer detector to the averaged detector over exact reals, not to the floating-point detector the program runs. See the line above.
- Table.Load: requires rectangular values. The spreadsheet client pads every row to one width. pandas' padding of ragged rows with `None` is not modelled.
- Table.Load: the only error path modelled is the division by a zero row width. Every other error the handler catches comes from the network calls, which are not modelled.
- Report.FilterColumns: selects columns by position, so it matches the code only when labels are distinct. Report generation uses `Report.LabelFilter`, which looks labels up as pandas does. `Report.LabelFilterMatchesPositional` proves that the two agree when labels are distinct.
- Report.GenerateReport: promises a profile without collection cells, equal to the filter by position, only when labels are distinct. With a repeated label, the code keeps every column under that label, even one holding a list, and selects it once per occurrence of the label (`Report.RepeatedLabelReport`).
- Report.LoadedSheetReport: promises that the profile is the loaded frame itself only when the loaded labels are distinct. A header row that repeats a text, such as two blank header cells, makes the profile repeat those columns (`Report.RepeatedHeaderReport`, `Report.DuplicateHeaderExample`).
- pandas dtype inference and the `astype(str)` label coercion. Loaded cells and header texts are already strings, so the coercion is the identity.
- The text of the warning at line 124. It is a UI message, and it lists the excluded labels in the iteration order of a Python set, which is unspecified. Only whether the join succeeds is modelled (`Report.Outcome`).
- Listing spreadsheets and worksheets, and building the selector labels: UI and I/O only.
