# Metro robbery dashboard: the data pipeline, in Dafny

The dashboard reads a workbook of robbery reports on the Mexico City metro.
It has one sheet per year, "2020" to "2024", and a sheet "Hoja1" with a
breakdown by gender. From these it draws charts and a short trend analysis.
This project models the data handling behind those charts. The charts
themselves are not modelled.

- `load_data`: for each year sheet in turn, it normalises the column
  headers, finds the count column and the station column by substring,
  renames them, coerces the counts to numbers, stamps each row with the
  sheet's year, rewrites the line labels, and drops rows with no alcaldía or
  station. A sheet that fails is skipped. The surviving frames are
  concatenated in year order.
- `manual_correlation`: the hand-written Pearson coefficient and its guard
  cases.
- `generate_plots`, without the drawing: the yearly totals, the top 10
  stations, the top 15 alcaldías, the per-line totals without
  "DESCONOCIDA", the share printed on each bar, and the trend and strength
  labels.
- `generate_gender_plot`, up to the pie: the variant in `programa.py`
  (headers through `str()`, rows cleaned) and the variant in `graficas.py`
  (`strip()` on the raw header, no cleaning).

`graficas.py` carries the same `manual_correlation` and `load_data` at the
same lines as `programa.py` (17-34 and 36-89). Its `generate_plots`
(120-205) computes the same values as `programa.py` 141-224. Only the
styling differs. The rows below cite `programa.py` for this shared code.

Modules, one per file:

- `Wrappers`: `Option` and `Result`.
- `Text`: Python's `strip`, `lower`, `upper`, `replace` and `in`.
- `Cells`: spreadsheet cells, `to_numeric(errors='coerce')` and `astype(str)`.
- `Columns`: header normalisation, first-match search and renaming.
- `Keys`: group keys and their order.
- `Groups`: `groupby().sum()`, `nlargest` and bar shares.
- `Correlation`: the coefficient.
- `Loader`: `load_data`.
- `Plots`: `generate_plots`.
- `Gender`: both gender loaders.

The workbook is a parameter: a map from sheet name to a header row and data
rows. `load_data` is a `method` with the source's loop over the year
sheets. It is proved equal to the function `Loaded`, and the properties are
proved about `Loaded`. `generate_plots` is a method that fills its result
map chart by chart.

The coefficient is kept exact. `Ratio(p, q)` stands for p / sqrt(q), so no
square root is needed. The label tests `corr > 0` and `abs(corr) > 0.7` are
decided on the pair. `LabelsAgreeWithValue` proves they agree with the same
tests on the real number the pair stands for.

Where a reader might expect other behaviour, the model follows the code:

- Ranking shares divide by the sum of the displayed bars, not by the sum
  over all stations (lines 190 and 205).
- "LÍNEA 1" becomes "L 1" with its inner space, not "L1" (lines 71-73).
- A missing line cell becomes the text "NAN". The `fillna('DESCONOCIDA')`
  runs after `astype(str)` and never fires. A row is labelled
  "DESCONOCIDA" only when its line cell already reads so (for example
  "DESCONOCIDA" or "desconocida"), and only those rows leave the line
  chart.
- Station and alcaldía names are used as read. Only rows where they are
  missing are dropped.
- Counts may be negative or fractional.
- A sheet without the exact headers "alcaldia" and "linea" is skipped,
  because selecting the columns raises inside the per-sheet `try`.

## Model

| member | source | states |
|---|---|---|
| Text.StripKeepsNonSpace | programa.py:101 | `strip()` keeps every character that is not whitespace |
| Text.StripIsTrimmedSlice | programa.py:47 | `strip()` returns a slice of its input with no whitespace at either end, everything it cuts off is whitespace, and it leaves an already trimmed string unchanged |
| Columns.NormalizeHeaderByChar | programa.py:47-49 | the seven chained `replace` calls amount to rewriting each character of the stripped, lower-cased header on its own |
| Columns.NormalizeHeaderIsCanonical | programa.py:47-49 | a normalised header has no whitespace at either end, no space, none of ó é í á ú ñ, and no upper-case letter |
| Columns.CanonicalHeaderIsFixed | programa.py:47-49 | normalisation leaves a header that is already canonical unchanged |
| Columns.NormalizeHeaderIdempotent | programa.py:47-49 | normalising twice is the same as normalising once |
| Loader.NormalizedHeaders | programa.py:47-49 | the header row normalises exactly when every header is text; the result has one canonical name per header, in order |
| Loader.LayoutHeaderNotText | programa.py:47-49 | a sheet fails with "header not text" exactly when some header is not a string, because `col.strip()` raises |
| Columns.FirstMatch | programa.py:52-53 | `next(...)` returns an index whose header matches and no earlier header matches; it returns nothing exactly when no header matches |
| Loader.RoleLayoutErrors | programa.py:52-56 | "no count column" exactly when no header contains "robo" or "reporte"; when one does, "no station column" exactly when no header contains "estacion"; any other failure is a missing column |
| Loader.RoleLayoutStation | programa.py:53-63 | the station column is the first header containing "estacion" |
| Loader.RoleLayoutCount | programa.py:52-63 | the count column contains "robo" or "reporte"; it is the first such header unless that first header also contains "estacion" |
| Columns.RenameOutcome | programa.py:58-63 | the rename gives "estacion" to the station column (which wins when both roles fall on one column) and "robos" to the count column, and both names survive on columns already called that |
| Columns.RenameKeeps | programa.py:58-63 | any other name is kept exactly on columns that carry neither role |
| Loader.ColumnIndex | programa.py:75 | `df[name]` reads the first column of that name, and fails exactly when there is none |
| Loader.ColumnIndexAt | programa.py:75 | a column that is the first of its name is the one `df[name]` reads |
| Loader.ColumnsLayoutFinds | programa.py:75 | the selection succeeds exactly when "robos", "alcaldia", "linea" and "estacion" are all present; each then points at the first column of its name; otherwise the failure is a missing column |
| Loader.RoleLayoutExactColumns | programa.py:58-75 | the alcaldía and line columns are the headers that read exactly "alcaldia" and "linea" |
| Loader.RoleLayoutSucceeds | programa.py:52-75 | a sheet with a first count header that is not a station header, a station header, "alcaldia" and "linea" has a layout |
| Cells.CountValue | programa.py:66 | a count is the cell's number or the number its text reads as, and 0 when the cell is missing or not numeric |
| Cells.ParseNumberOfInteger | programa.py:66 | the decimal text of an integer, with or without a minus sign, reads as that integer |
| Cells.WordCountIsZero | programa.py:66 | a count cell "abc" counts as 0 |
| Cells.SeparatedCountIsZero | programa.py:66 | a count cell "1,234" counts as 0, since `to_numeric` does not read thousands separators |
| Cells.DecimalCount | programa.py:66 | a count cell "12.5" counts as 12.5 |
| Loader.YearSheetsAreYears | programa.py:39-67 | the i-th year sheet's name reads as the year 2020 + i |
| Loader.RowRecord | programa.py:66-75 | a row is dropped exactly when its alcaldía or station is missing; a kept row has the sheet's year, the coerced count, the rewritten line label, and its alcaldía and station as read |
| Loader.RecordsFromRows | programa.py:75 | a sheet yields no more records than rows, each stamped with the sheet's year and made from one of its rows |
| Loader.CompleteRowKept | programa.py:75 | a row with both alcaldía and station present is kept |
| Filter.PresentInOrder | programa.py:75 | filtering keeps order and each position at most once: the k-th kept value sits at the k-th kept position, kept positions strictly increase, and a position is kept exactly when its value is present |
| Loader.RecordsArePresent | programa.py:75 | the row-by-row records of a sheet are the filter of its per-row outcomes |
| Loader.RecordsInRowOrder | programa.py:75 | the k-th record is the record of the k-th kept row, kept rows are in sheet order with none repeated, and a row is kept exactly when its alcaldía and station are present |
| Loader.LoadData | programa.py:36-84 | the loop over the year sheets returns the concatenation of the frames of the sheets that load, in year order |
| Loader.CollectMembership | programa.py:75-84 | a record is in the concatenation exactly when some sheet that loaded holds it |
| Loader.LoadedMembership | programa.py:42-84 | a record is loaded exactly when one of the five year sheets loads and holds it |
| Loader.LoadYearStampsYear | programa.py:67 | every record of a sheet carries the year its name reads as |
| Loader.LoadedYears | programa.py:39-67 | every loaded record's year lies between 2020 and 2024 |
| Loader.CollectOrdered | programa.py:75-84 | frames of increasing years concatenate into records of non-decreasing year |
| Loader.LoadedYearsAscending | programa.py:39-84 | the loaded records are in non-decreasing year order |
| Loader.CollectIgnoresFailures | programa.py:77-79 | which error a failing sheet raised does not change the result |
| Loader.LoadedSkipsFailingSheet | programa.py:77-79 | a sheet that fails contributes nothing: the result equals that of the workbook without it |
| Loader.CollectEmptyIff | programa.py:81-84 | the concatenation is empty exactly when every outcome failed or was empty |
| Loader.LoadedEmptyIff | programa.py:81-84 | the loaded frame is empty exactly when no year sheet loads with a row |
| Loader.CanonicalLineShape | programa.py:70-73 | a line label has no whitespace at either end and no lower-case letter |
| Loader.LineLabelExamples | programa.py:71-73 | "LÍNEA 1", "Línea 1" and "Linea 1" all become "L 1" |
| Loader.MissingLineIsNan | programa.py:71-73 | a missing line cell becomes "NAN", not "DESCONOCIDA" |
| Loader.PlainLineLabelKept | programa.py:71-73 | a trimmed upper-case label without the letter L comes through unchanged |
| Loader.UnknownLineLabelKept | programa.py:71-73 | a line cell reading "DESCONOCIDA" keeps that label |
| Correlation.NoSpreadIffAllEqual | programa.py:30 | the centred sum of squares is zero exactly when all values are equal |
| Correlation.ManualCorrelationZeroIff | programa.py:17-34 | the coefficient is the literal 0 exactly when the lengths differ, the input is empty, or all x or all y are equal; otherwise the value under the root is positive |
| Correlation.ManualCorrelationPairBounded | programa.py:29-34 | the numerator squared never exceeds the value under the root, so the coefficient is in [-1, 1] |
| Correlation.ManualCorrelationBounded | programa.py:29-34 | the coefficient lies between -1 and 1 |
| Correlation.LabelsAgreeWithValue | programa.py:158-160 | `corr > 0` and `abs(corr) > 0.7`, decided on the exact pair, agree with the same tests on the real coefficient |
| Correlation.PerfectIncreasingTrend | programa.py:17-34 | totals 10, 20, 30 over 2020-2022 give the coefficient 1, read as increasing and strong |
| Keys.LessIrreflexive | programa.py:150 | the group-key order is irreflexive |
| Keys.LessTransitive | programa.py:150 | the group-key order is transitive |
| Keys.LessTotal | programa.py:150 | any two distinct keys are ordered |
| Groups.Add | programa.py:150 | adding a count keeps the groups sorted by key, adds the key, adds the count to the total, and changes only that key's sum |
| Groups.GroupSum | programa.py:150 | `groupby().sum()` gives one group per distinct key, ascending, whose sum is that key's total, with the grand total conserved |
| Groups.GroupSumTotals | programa.py:150 | each group's total is the sum of its key's counts, and no key appears twice |
| Groups.SortDesc | programa.py:184 | sorting for `nlargest` gives a permutation in descending order of total |
| Groups.Largest | programa.py:184 | `nlargest(n)` keeps min(n, size) groups, in descending order, drawn from the input; every group left out is no larger than any kept one, and all are kept when there are at most n |
| Groups.InsertDescKeepsTieOrder | programa.py:184 | inserting a group whose key precedes all others puts it ahead of the groups with its total |
| Groups.SortDescKeepsTieOrder | programa.py:184 | on grouped data, groups with equal totals stay in ascending key order after sorting |
| Groups.PrefixKeepsFirst | programa.py:184 | cutting such a sequence keeps that order, and a group cut off with a kept group's total comes after it in key order |
| Groups.LargestKeepsFirst | programa.py:184 | `nlargest(n)` with `keep='first'` on grouped data: kept ties are in key order, and of the groups tied at the cut the earlier keys are kept |
| Groups.ChartSharesSumToOne | programa.py:171-175 | with a non-zero denominator every bar has a share, and the shares add up to 1 |
| Plots.YearlyKeys | programa.py:150 | the yearly groups are exactly the years present in the frame |
| Plots.YearlyShape | programa.py:150 | every yearly key is a year, and a non-empty frame has at least one year |
| Plots.YearlyConservation | programa.py:150-151 | the yearly totals add up to the sum of all counts, which is the reported total |
| Plots.SeqMin | programa.py:152 | the minimum is one of the values and no value is smaller |
| Plots.SeqMax | programa.py:153 | the maximum is one of the values and no value is larger |
| Plots.FirstAndLastYear | programa.py:152-153 | the first and last years are the smallest and largest years present in the frame |
| Plots.YearsNotAllEqual | programa.py:156-157 | with two or more yearly groups the years are not all equal |
| Plots.AnalysisLabels | programa.py:156-164 | fewer than two years gives 0, "No hay suficientes datos" and ""; otherwise the coefficient is 0 exactly when all yearly totals are equal, the trend is "↑ Aumenta" exactly when it is positive, "Fuerte" exactly when its magnitude exceeds 0.7, and it lies in [-1, 1] |
| Plots.YearShares | programa.py:171-175 | each year's bar shows its total over the grand total of all counts |
| Plots.RankedAreGroups | programa.py:184 | each ranked bar is a key of the frame with that key's summed count |
| Plots.OmittedAreSmaller | programa.py:184 | no omitted key has a larger total than a shown one |
| Plots.FewKeysAllShown | programa.py:184 | the ranking has min(n, number of keys) bars, and shows every key when there are few |
| Plots.TopGroups | programa.py:184 | `groupby().sum().nlargest(n)` is a ranking: size, descending order, true totals, omitted ones no larger, all shown when few |
| Plots.StationRankingIsTop | programa.py:184 | the station chart is the top-10 ranking of stations by summed count |
| Plots.AlcaldiaRankingIsTop | programa.py:199 | the alcaldía chart is the top-15 ranking of alcaldías by summed count |
| Plots.RankingSharesOverDisplayed | programa.py:188-190 | each station bar's share is its total over the sum of the displayed bars, and the displayed shares add up to 1 |
| Plots.LineEntriesSums | programa.py:215-216 | after the filter, the counts add up to the known lines' total, and each line keeps its own total, except "DESCONOCIDA", which gets 0 |
| Plots.LineEntriesKeys | programa.py:215-216 | the line groups are exactly the line labels present other than "DESCONOCIDA" |
| Plots.LineTotalsExcludeUnknown | programa.py:214-224 | the line chart has every known line with its full total and no "DESCONOCIDA", with no cut-off, and each share is over the known lines' sum |
| Plots.GeneratePlots | programa.py:141-233 | an empty frame gives no charts and no analysis; otherwise the four charts are the yearly, station, alcaldía and line charts, and the analysis is that of the frame, with the total of all counts |
| Gender.GenderHeaders | programa.py:101 | each header is only stripped and lower-cased |
| Gender.AccentedHeaderNotFound | programa.py:101-107 | a header holding one of ó é í á ú ñ in either case and at any position, such as "Género", " GÉNERO " or "Frecuencia de género", is never found as "genero" or "frecuencia" |
| Gender.CleanRowsKeepsUsable | programa.py:110-112 | cleaning keeps exactly the rows with a gender and a numeric frequency, reading the frequency as a number |
| Gender.CleanRowsEmptyIff | programa.py:110-116 | the cleaned data is empty exactly when no row is usable |
| Gender.RowSlice | programa.py:110-112 | a row gives a slice exactly when it is usable; the slice holds its gender cell and the number `to_numeric` reads from its frequency |
| Gender.CleanRowsArePresent | programa.py:110-112 | the row-by-row cleaning is the filter of the per-row slices |
| Gender.CleanRowsInOrder | programa.py:110-112 | the k-th slice is read from the k-th usable row, usable rows are kept in sheet order with none repeated, and a row is kept exactly when it is usable |
| Gender.GenderDataNoneIff | programa.py:92-116 | the loader gives nothing exactly when "Hoja1" is missing, "genero" or "frecuencia" is missing, or no row survives cleaning; otherwise the slices are the cleaned rows of the first "genero" and "frecuencia" columns, each with a gender |
| Gender.RawSlices | graficas.py:102-103 | the pie gets one slice per row, with both cells as they are |
| Gender.RawGenderDataSpec | graficas.py:94-103 | this loader gives nothing exactly when "Hoja1" is missing, a header is not text, or a column is missing; otherwise the slices are the raw "genero" and "frecuencia" cells, one per row, even for an empty sheet |
| Gender.NumericHeaderVariants | graficas.py:95 | for a sheet with a numeric header, this loader gives nothing because `strip()` raises, while the loader in `programa.py` draws the row |

## Left out

- The Flask application, its routes and templates: web plumbing.
- `pd.read_excel` and the unused database setting. The workbook is a
  parameter, and a sheet that cannot be read is a missing key.
- The matplotlib figures, text placement and the PNG/base64 encoding,
  including the errors `pie` raises on negative or all-zero data. They are
  drawing through libraries this model does not see.
- Floating point. Counts, sums and shares are exact reals. The coefficient
  is kept as a numerator and the value under its square root.
- The `{:,}` and `{:.1%}` formatting of totals and shares. A share is
  `None` where the division would give NaN or infinity.
- The `print` calls in the error paths.
- Case mapping outside ASCII and Latin-1: `lower()` and `upper()` are
  modelled on those two ranges only. The model assumes the workbook's
  headers and labels use no other letters.
- Cells.ParseNumber: reads an optional sign and a decimal with an optional
  point. Exponents, "inf", "nan" and surrounding whitespace are not
  modelled.
- Boolean and date cells: a cell is missing, a number or text.
- Duplicate column names: the model reads the first column of each name,
  where pandas would give a frame for `df[name]`.
- The test `'linea' in df.columns` at line 214: the model always draws the
  line chart. Every loaded frame has that column.
- The outer `try` of `load_data` (lines 86-88): every error the model
  knows of is caught by the per-sheet `try` and skips that sheet.
- Loader.RoleLayoutCount: when the first count header also contains
  "estacion", it states only that the count column is a count header, not
  which one.
- Correlation.ManualCorrelationBounded: stated for any real the exact pair
  stands for. The model has no square root, so it does not construct that
  real. ManualCorrelationPairBounded states the bound on the pair itself.
- Plots.RankingSharesOverDisplayed: stated for the station chart. The
  alcaldía chart uses the same `Chart` and `ChartSharesSumToOne`.
