# covid19-ccaa ETL: a verified model of the table transforms

This project models the table-transform core of the covid19-ccaa ETL in Dafny.
The ETL reads the Spanish COVID-19 CSV files (per region, national, and
national by age and sex). It reshapes them with pandas and publishes JSON-stat
cubes. The model covers the following, in `etl/main.py` and `etl/etl.py`:

- the region filter and column reshape: `transform`, `normalize_ccaa` and `normalize`;
- cumulative-to-daily first differences: `deacumulate` and the five-column national loop;
- the guarded percentage variation of the national and Cantabria case series;
- `delay_date`, which moves every `fecha` one calendar day back;
- latest-date selection;
- the melt-then-sort step of `to_json`, `to_json_stat` and the national block;
- the left merges that build `todos_ccaa`, `todas_acumulado` and `cant_esp`.

A pandas frame is a `Frames.Table`. It holds column names, row labels (the
index) and rows, and each row is a sequence of `Value` cells (`Int`, `Real`,
`Str`, `Missing`). pandas label addressing (`df.loc[i, c]`) looks the label up
in the index. A missing label is a `LabelError`, which is pandas' `KeyError`.

Statements that change a frame in place (`drop(..., inplace=True)`, `rename`,
`df.loc[i, c] = v`) are methods of the class `Frames.DataFrame`. Each such
method's `ensures` ties the new `Value()` to a pure function of the old one,
and lemmas state what that function does cell by cell. The script's loops are
`while` loops with invariants:

- `delay_date`;
- `deacumulate`;
- the national delta loop;
- the two variation loops.

Exceptions become `Result`/`Outcome` values. Modules:

| module | what it models |
|---|---|
| `Wrappers` | `Option` |
| `Text` | Python string order, zero-padded digit fields |
| `Dates` | Gregorian calendar, `strptime`/`strftime('%Y-%m-%d')`, `timedelta(days=1)` |
| `Frames` | `Result`, `Outcome`, error kinds, tables, the pandas operations used, the `DataFrame` class |
| `Delay` | `delay_date` |
| `Series` | the label loops `df.loc[i, c] = f(df.loc[i, a], df.loc[i-1, a])` |
| `Ordering` | `sort_values` (stable, several keys) |
| `Reshape` | `melt` |
| `Merge` | `merge(how='left', on=...)` |
| `EtlMain` | `transform`, `deacumulate`, `to_json`, `normalize_ccaa` |
| `Etl` | `normalize`, `to_json_stat`, the national block of `etl.py` |
| `Latest` | latest-date selections |
| `MainScript` | the national block and the variation series of `main.py` |
| `Joins` | the merge chains `todos_ccaa`, `todas_acumulado`, `cant_esp` |

## Model

| member | source | states |
|---|---|---|
| Text.LessTrichotomy | etl/main.py:56 | Python's string order is total and asymmetric: exactly one of `a < b`, `a == b`, `b < a` |
| Text.LessConcat | etl/main.py:56 | concatenations with equal-length prefixes compare prefix first, then suffix |
| Text.PadValue | etl/main.py:81 | reading back a zero-padded field gives the number when it fits the width |
| Text.ValuePad | etl/main.py:79 | padding the value of a digit string to its own length gives the string back |
| Text.PadOrder | etl/main.py:81 | zero-padded fields of one width compare as strings exactly as their numbers compare, and are equal exactly when the numbers are |
| Dates.DaysInMonth | etl/main.py:80 | every month has 28 to 31 days |
| Dates.MonthsFillYear | etl/main.py:80 | the twelve months add up to the length of the year (365 or 366 by the Gregorian leap rule) |
| Dates.OrdinalOrder | etl/main.py:80 | the day number (`date.toordinal`) orders valid dates chronologically and is injective |
| Dates.PrevDay | etl/main.py:80 | `d - timedelta(days=1)` exists exactly when `d` is not 0001-01-01 (OverflowError there) |
| Dates.PrevDayIsPredecessor | etl/main.py:80 | the previous day is a valid date whose day number is one less |
| Dates.PrevDayUnique | etl/main.py:80 | any valid date one day number earlier is the previous day |
| Dates.RenderThenParse | etl/main.py:79-81 | parsing a rendered `YYYY-MM-DD` date gives the date back |
| Dates.ParseThenRender | etl/main.py:79-81 | rendering a parsed string gives the string back |
| Dates.FieldsOrder | etl/main.py:183 | three fixed-width fields joined by `-` compare field by field |
| Dates.RenderOrder | etl/main.py:183 | the string order of rendered dates is their chronological order (what `max()` and `sort_values` rely on) |
| Dates.DelayText | etl/main.py:79-81 | a shifted result is a parseable date string |
| Dates.DelayTextMeaning | etl/main.py:79-81 | the step fails exactly on unparseable strings and on 0001-01-01; otherwise the result is the day before, and earlier as a string |
| Dates.DelayLeapFebruary | etl/main.py:79-81 | 2020-03-01 becomes 2020-02-29 |
| Dates.DelayCommonFebruary | etl/main.py:79-81 | 2019-03-01 becomes 2019-02-28 |
| Dates.DelayCenturyFebruary | etl/main.py:79-81 | 1900-03-01 becomes 1900-02-28 (1900 is not a leap year) |
| Dates.DelayQuadCenturyFebruary | etl/main.py:79-81 | 2000-03-01 becomes 2000-02-29 (2000 is a leap year) |
| Dates.DelayYearEnd | etl/main.py:79-81 | 2020-01-01 becomes 2019-12-31 |
| Dates.DelayThirtyDayMonth | etl/main.py:79-81 | 2020-05-01 becomes 2020-04-30 |
| Dates.DelayFirstDay | etl/main.py:80 | 0001-01-01 has no previous day: the step fails |
| Delay.DelayCell | etl/main.py:79-82 | one cell's step: succeeds exactly on a string holding a date after 0001-01-01, giving the day before; otherwise TypeError (not a string), ValueError (unparseable) or OverflowError (0001-01-01) |
| Delay.DelayDate | etl/main.py:76-83 | the loop succeeds exactly when every label 0..n-1 steps successfully, and leaves the table rewritten; a failure is the first failing label's error |
| Delay.StepsOkMeaning | etl/main.py:78-82 | the loop runs to the end exactly when the column exists, every label is below the row count and every cell's step succeeds |
| Delay.LabelGapFails | etl/main.py:79 | a label at or above the row count makes some label missing, so the loop raises KeyError |
| Delay.FirstLabelGap | etl/main.py:78-82 | when every cell passes the step, the loop reaches the smallest missing label and raises KeyError there |
| Delay.DelayDateResult | etl/main.py:76-83 | after the loop every `fecha` cell is the step of the old one; columns, labels and all other cells are unchanged |
| Frames.DropColumn | etl/main.py:34 | `drop(c, axis=1)` succeeds exactly when `c` is a column; it removes that column only and keeps rows, labels and other cells |
| Frames.RenameColumns | etl/main.py:36 | `rename(columns=m)` keeps rows and labels and moves every cell to the renamed column; DuplicateColumn when two names collide |
| Frames.FilterRows | etl/main.py:31 | dropping the rows a test rejects keeps exactly the accepted rows, in order, with their old labels |
| Frames.SelectColumns | etl/main.py:184 | `df[cols]` has exactly the named columns in that order, with every row and label |
| Frames.Loc | etl/main.py:41 | `df.loc[label, c]` succeeds exactly when the label and column exist, and reads the cell at that label |
| Frames.SetLoc | etl/main.py:41 | `df.loc[label, c] = v` keeps labels and row count; it adds `c` as a new column when missing |
| Frames.SetLocCells | etl/main.py:41 | the assignment writes exactly one cell; a new column is NaN elsewhere |
| Frames.DropLabelsBelow | etl/main.py:396 | dropping labels below a bound keeps exactly the rows labelled at or above it; on a 0..n-1 index that is the suffix from the bound, labelled bound.. |
| Frames.ResetIndex | etl/main.py:397 | `reset_index(drop=True)` relabels 0..n-1 and keeps every cell; without `drop` the old labels become a first column (`index`, or `level_0`, or ValueError) |
| Frames.SetIndexDiscarded | etl/main.py:73 | `set_index('fecha', 'ccaa')` whose result is discarded raises KeyError exactly when there is no `fecha` column, and otherwise leaves the frame as it was |
| Frames.DataFrame.SetIndex | etl/main.py:194 | the discarded `set_index` changes nothing and fails exactly as `SetIndexDiscarded` does |
| Frames.DataFrame.Drop | etl/main.py:34 | the in-place drop leaves the frame as `DropColumn` of its old value, and unchanged on error |
| Frames.DataFrame.DropRowsUnless | etl/main.py:31 | the in-place row drop leaves the frame as `FilterRows` of its old value |
| Frames.DataFrame.Rename | etl/main.py:36 | the in-place rename leaves the frame as `RenameColumns` of its old value |
| Frames.DataFrame.DropLabelsBelowInPlace | etl/main.py:396 | the in-place drop of labels below 9 leaves the frame as `DropLabelsBelow` of its old value |
| Frames.DataFrame.SetCell | etl/main.py:41 | the in-place cell assignment leaves the frame as `SetLoc` of its old value |
| Frames.ResetIndexInPlace | etl/main.py:32 | the in-place `reset_index` leaves the frame as `ResetIndex` of its old value |
| Ordering.ValueLessTotal | etl/main.py:56 | the cell order is a strict total order up to `Same` |
| Ordering.KeyLessTotal | etl/main.py:56 | any two sort keys are ordered one way, or match field by field |
| Ordering.SortSorted | etl/main.py:56 | the insertion sort yields positions in key order |
| Ordering.SortValues | etl/main.py:56 | `sort_values(by=keys)` succeeds exactly when every key is a column, and yields the rows at a permutation of 0..n-1 in key order, rows with matching keys in their original order |
| Ordering.SortStable | etl/main.py:56 | the insertion sort keeps positions with matching keys in their input order |
| Ordering.SortValuesStable | etl/main.py:56 | of two sorted rows with matching keys, the earlier one came from an earlier row of the table |
| Ordering.SortValuesOrdered | etl/main.py:56 | no row of the sorted table has a smaller key than an earlier row |
| Ordering.SortValuesPermutes | etl/main.py:56 | the sorted rows are the original rows, as many of each |
| Reshape.Melt | etl/main.py:51-54 | `melt` succeeds exactly when every id and value column exists and the result names are distinct; n rows and m value columns give m·n rows labelled 0.. |
| Reshape.MeltAt | etl/main.py:51-54 | row j·n+i holds value column j's name and row i's cell of that column |
| Reshape.MeltRowAt | etl/main.py:51-54 | row j·n+i is row i's id cells, then the name of value column j, then its cell |
| Reshape.MeltIdAt | etl/main.py:51-54 | each melted row repeats its source row's id cells |
| Reshape.MeltRoundTrip | etl/main.py:51-54 | re-pivoting value column j's block gives that column back, cell for cell |
| Series.Sub | etl/main.py:41 | pandas subtraction: TypeError exactly when a string is involved, NaN when a side is NaN, otherwise the difference (integer on integers) |
| Series.Rate | etl/main.py:243-245 | `100*(cur-prev)/prev` fails only on a string; NaN stays NaN; a rate `r` satisfies `cur = prev + prev·r/100`, and `r > 0` exactly when `cur > prev` |
| Series.Apply | etl/main.py:203-213 | the label loop keeps labels and row count, adds the target columns when there are two rows or more, leaves other cells alone and writes each target cell as the last assignment for its row |
| Series.ApplyInPlace | etl/main.py:203-213 | the in-place loop succeeds exactly when every step does, and leaves the frame as `Apply` of its old value |
| Series.DeltaCells | etl/main.py:203-213 | on running totals without text, each first-difference update sets `daily[i]` to the pandas difference `cum[i] - cum[i-1]` for i ≥ 1 (NaN when a side is NaN), leaves row 0's `daily` as it was and the cumulative column unchanged |
| Series.DeltasRunExactly | etl/main.py:203-213 | a loop of first differences over two rows or more runs to the end exactly when no running total holds text (a text cell raises TypeError) |
| Merge.MergedColumns | etl/main.py:173 | the merged columns are the left ones, then the right non-key ones, renamed `_x`/`_y` on a clash |
| Merge.Matches | etl/main.py:173 | the right rows matching a key: exactly those with an equal key, in increasing order |
| Merge.MatchOf | etl/main.py:173 | the one matching right row, or none at all when no right row's key matches |
| Merge.LeftMerge | etl/main.py:173 | the merge succeeds exactly when every key is a column on both sides and the merged names are distinct; it has at least the left row count and labels 0.. |
| Merge.AtMostOneMatch | etl/main.py:173 | with unique right keys a left row matches at most one right row |
| Merge.LeftMergeUnique | etl/main.py:173-176 | with unique right keys the merge has exactly the left rows in left order; left cells are kept and right cells are the matching row's, or NaN |
| Joins.LookupFinds | etl/main.py:173 | the looked-up right cell is the matching row's cell, or NaN when no row matches |
| Joins.MergeStep | etl/main.py:173 | one left merge without clashes appends the right non-key columns, keeps every left cell and fills the right cells by key |
| Joins.MergeAllKeepsLeft | etl/main.py:173-176 | a chain of clash-free left merges keeps the left rows and cells, and every added cell is its frame's lookup by the left row's key |
| Joins.DropEach | etl/main.py:501-504 | a sequence of in-place drops leaves the frame as `DropAll` of its old value, or stops at the first missing name |
| Joins.DropAllCells | etl/main.py:501-504 | the drops succeed exactly when the names are distinct columns (KeyError otherwise) and remove exactly those names, keeping every other cell |
| Joins.MergeFigures | etl/main.py:173-176 | merging frames that each bring one new figure appends the figures in order, keeps the left cells, and reads each figure by key |
| Joins.TodosCcaaCells | etl/main.py:173-176 | `todos_ccaa` is the `casos` rows with `altas`, `fallecidos`, `hospital`, `uci` appended, each looked up by (`fecha`, `ccaa`) |
| Joins.TodasAcumuladoFrame | etl/main.py:497-509 | merging, dropping the daily figures and renaming in place gives the `TodasAcumulado` table, or its error |
| Joins.TodasAcumuladoCells | etl/main.py:497-509 | `todas_acumulado` keeps `fecha` and the four running totals under their short names; Cantabria's cases are the left cells and the others are looked up by date |
| Joins.RenameTotals | etl/main.py:505-509 | the rename gives each running total its short name and keeps the keys |
| Joins.MergedDistinct | etl/main.py:522 | with distinct names on each side that do not end in `x` or `y`, the suffixed merged names are distinct |
| Joins.SharedCells | etl/main.py:522 | a clashing column `c` appears as `c_x` with the left cells and `c_y` with the right cells looked up by key |
| Joins.CantEspFrame | etl/main.py:519-535 | the merge, the ten drops and the rename in place give the `CantEsp` table, or its error |
| Joins.CantEspCells | etl/main.py:519-535 | `cant_esp` has exactly `fecha`, `casos-espana` and `casos-cantabria`; it has Spain's rows and cumulative cases, and Cantabria's cumulative cases looked up by date |
| EtlMain.KeepCantabria | etl/main.py:31-33 | the first three statements of `transform` leave the frame as `CantabriaRows` of the old one, or fail with its error |
| EtlMain.ReshapeColumns | etl/main.py:34-36 | the last three statements of `transform` leave the frame as `FigureColumns` of the old one |
| EtlMain.Transform | etl/main.py:29-37 | `transform` in place leaves the frame as `Transformed` of its old value, or fails with its error |
| EtlMain.CantabriaRowsKept | etl/main.py:31-33 | exactly the rows with `cod_ine == 6` are kept, in order, relabelled 0..k-1, with the same columns |
| EtlMain.FigureColumnsCells | etl/main.py:34-36 | every column other than `cod_ine`/`CCAA` survives, `total` renamed to the variable, with its cells |
| EtlMain.TransformKeepsCantabria | etl/main.py:29-37 | the result has the Cantabria rows, labelled 0..k-1, without `cod_ine` and `CCAA`, and with `total` renamed |
| EtlMain.TransformErrors | etl/main.py:31-35 | no `cod_ine` column is an AttributeError; no `CCAA` column is a KeyError |
| EtlMain.NormalizeCcaa | etl/main.py:67-74 | `normalize_ccaa` leaves the caller's frame alone and returns a new frame holding `NormalizedCcaa`, or its error (KeyError from `set_index` when there is no `fecha`) |
| EtlMain.NormalizedCcaaRows | etl/main.py:67-74 | the result has `ccaa` and no `cod_ine`; it keeps exactly the non-`Total` rows in order with their old labels, cells moved to the renamed columns (`set_index` has no effect) |
| EtlMain.TotalRowBreaksDelay | etl/main.py:72-82 | a `Total` row before a regional row makes some step of `delay_date` raise KeyError on the normalized frame, so the loop cannot finish; when every date can be moved back, that KeyError is the first exception |
| EtlMain.TotalRowLeavesGap | etl/main.py:72 | such a frame has a label at or above its row count |
| EtlMain.RelabelledDelayOk | etl/main.py:72-82 | relabelled 0..k-1, `delay_date` runs to the end exactly when every `fecha` cell is a date after 0001-01-01 |
| EtlMain.Deacumulate | etl/main.py:39-43 | `deacumulate` succeeds exactly when every step does, and leaves the frame as the first-difference `Apply` |
| EtlMain.DeacumulateCells | etl/main.py:39-43 | on running totals without text, `out[i]` is the pandas difference `cum[i] - cum[i-1]` for 1 ≤ i < n (NaN when a side is NaN); row 0 keeps its old cell; the cumulative column is unchanged |
| EtlMain.Telescope | etl/main.py:39-43 | first differences sum to last minus first |
| EtlMain.DeacumulateTelescopes | etl/main.py:39-43 | the daily column from row 1 on sums to `cum[n-1] - cum[0]` |
| EtlMain.NameList.Append | etl/main.py:55 | `id_vars.append` adds the name at the end |
| EtlMain.ToJson | etl/main.py:51-56 | the returned frame is `Unpivoted`; the caller's `id_vars` list gains `Variables` when the melt succeeds |
| EtlMain.UnpivotedShape | etl/main.py:51-56 | the melt succeeds exactly when the columns exist and names are distinct; the result has `ids + [Variables, value]`, m·n rows, in `ids + [Variables]` order |
| EtlMain.UnpivotedRows | etl/main.py:51-56 | the sorted rows are the melted rows, as many of each |
| EtlMain.UnpivotedVariable | etl/main.py:51-54 | every row's `Variables` cell names one of the value columns |
| Etl.Normalize | etl/etl.py:23-31 | `normalize` filters the caller's frame in place (only the first drops) and returns a new frame holding `Normalized`, or its error |
| Etl.MeltedColumns | etl/etl.py:28-29 | after the melt and dropping `CCAA`, exactly `fecha` and `value` remain |
| Etl.NormalizedRows | etl/etl.py:23-31 | the result has columns `fecha` and the variable; kept row i with date column j gives row j·k+i: (that date, that cell) |
| Etl.JsonStatFrameRows | etl/etl.py:35-39 | the single-column melt keeps the row count, has a constant `Variables` column and is in `fecha` order |
| Etl.DateOrdered | etl/etl.py:39 | melting on `fecha` and sorting orders by date, then by variable name |
| Etl.NationalFrameOrder | etl/etl.py:61-69 | the national melt has 5·n rows, each naming one of the five variables, and within a date the variables are in string order |
| Latest.MaxCellIsMax | etl/main.py:183 | `max()` raises TypeError exactly when numbers and strings mix, is NaN exactly when all cells are, and otherwise is a present cell no other cell exceeds |
| Latest.LatestIsLastDay | etl/main.py:183 | on a column of rendered dates the maximum is the latest day |
| Latest.KeepLatestRows | etl/main.py:185 | keeping the rows equal to the maximum succeeds exactly when the column exists, and keeps exactly those rows in order |
| Latest.LatestRowsAreLatest | etl/main.py:185 | every kept row is at least as late as any row, and a nonempty column keeps at least one row |
| Latest.CasosCcaaLast | etl/main.py:183-186 | the copy, filter and drop give `CcaaLatest` of `todos_ccaa`, or its error |
| Latest.CcaaLatestRows | etl/main.py:183-186 | the result has `ccaa` and `casos` of exactly the rows whose `fecha` is the maximum, in order |
| Latest.CopyFechaCcaaCasos | etl/main.py:184 | the copy has `fecha`, `ccaa`, `casos` with the same cells |
| Latest.NacionalEdadInPlace | etl/main.py:337-347 | the four drops and the rename in place leave the frame as `NacionalEdad` of its old value |
| Latest.NacionalEdadRows | etl/main.py:337-347 | the result keeps exactly the latest rows that are neither `Total` ages nor `ambos` sexes, with the figure columns renamed |
| MainScript.NationalDeltasIndependent | etl/main.py:203-213 | no update of the five-column loop reads a column another writes |
| MainScript.FechaUntouched | etl/main.py:195-213 | `fecha` is neither renamed nor written by the loop |
| MainScript.NationalBlock | etl/main.py:192-213 | delay, rename and delta loop in place leave the frame as `NationalDaily` of its old value |
| MainScript.NationalKeepsFecha | etl/main.py:193 | each `fecha` of the result is the previous day of the input's |
| MainScript.NationalDailyCells | etl/main.py:192-213 | on a national file with integer running totals the block runs to the end, and each daily figure is the difference of its renamed running total on consecutive days from row 1 on, NaN on row 0 |
| MainScript.NationalSampleDaily | etl/main.py:192-213 | a two-row national file (where `altas` is both a running total and a daily name) meets the block's expectations, and its second day's `casos` is 14 - 10 |
| MainScript.NationalRenamed | etl/main.py:195-201 | the rename gives the five running totals their `-acumulado` names with the same cells |
| MainScript.NationalTelescopes | etl/main.py:203-213 | each daily column from row 1 on sums to the last minus the first running total |
| MainScript.EspanaAsWritten | etl/main.py:192-193 | `espana` is the same object as the national frame, so it holds `EspanaDelayedTwice` |
| MainScript.EspanaTwoDaysBack | etl/main.py:520-521 | as written, each `fecha` of `espana` is two days before the file's |
| MainScript.EspanaOneDayBack | etl/main.py:192-193 | one delay, as intended, moves each `fecha` exactly one day back |
| MainScript.VariacionInPlace | etl/main.py:241-247 | the variation loop in place leaves the frame as `Variacion` of its old value |
| MainScript.VariationRates | etl/main.py:241-247 | for i ≥ 1 the rate is `100·(v[i]-v[i-1])/v[i-1]` when `v[i-1] > 0` and NaN otherwise; row 0 is never assigned |
| MainScript.VariacionCells | etl/main.py:241-248 | after the loop and dropping `casos`, the frame has its other columns unchanged plus the rate column |
| MainScript.NationalVariationSeries | etl/main.py:239-248 | the national series is built as `NationalVariation` of `nacional_acumulado` |
| MainScript.NationalVariationCells | etl/main.py:239-248 | the national rate at each day is the guarded rate of the cases on consecutive days |
| MainScript.CantabriaVariationSeries | etl/main.py:395-405 | the Cantabria series is built as `CantabriaVariation` of `casos_acumulado` |
| MainScript.CantabriaVariationCells | etl/main.py:395-405 | the Cantabria rates start from day 9: row i is day i+9 and holds the guarded rate of days i+8 and i+9 |
| MainScript.LaterDays | etl/main.py:396 | dropping the labels below 9 from the copy keeps `fecha` and `casos`, and its row i is the original day i+9 |

## Left out

- Git pull, commit and push, and the swallowed `GitCommandError` (etl/main.py:86-88, 543-550; etl/etl.py:52-54): external I/O.
- CSV loading (etl/main.py:91; etl/etl.py:57): file I/O through a foreign library. Input frames are parameters.
- JSON-stat encoding with `pyjstat` and the unit-metadata patching with `json` (etl/main.py:57-60 and similar): black-box serialisation. `to_json` is modelled up to the sorted frame it encodes.
- `write_to_file` (etl/main.py:62-65; etl/etl.py:45-48): file I/O.
- etl/gist.py (an HTTP request) and etl/config.py (environment and constants): no table logic.
- The service-station, restoration and tourist-lodging sections (etl/main.py:94-156): outside the epidemiological core.
- `tail(1)` and the column-selection copies that only feed `to_json` (etl/main.py:215-235, 250-264, 266-334, 349-363, 371-391): plain `SelectColumns`/`RenameColumns` compositions, whose properties the Frames lemmas state.
- The altas, fallecidos and uci sections for Cantabria (etl/main.py:409-496) repeat `transform`/`deacumulate` on other files and are covered by the same members.
- Floating point: cells are `int` or `real`; the variation rate is exact `real` arithmetic. A NaN cell is `Missing`.
- Exception messages: an error is a kind (KeyError, TypeError, ...) without its text.
- pandas index internals beyond the label sequence. Duplicate column names, which pandas allows after some operations, are an error in the model.
- Comparing a number with a string in `sort_values`: pandas raises TypeError; the model orders numbers before strings.
- `strptime` accepts one-digit month and day fields; `Dates.Parse` accepts only the two-digit form `strftime` writes.
- Years below 1000: `strftime('%Y')` output is platform-dependent in CPython; the model renders four digits.
- Merge.LeftMergeUnique: stated only for unique right keys; with repeated keys pandas emits one row per match, which `Merge.MergeRows` models but no lemma describes cell by cell.
- Joins.CantEspCells: stated for the national frame as the script leaves it (exactly `fecha` and the ten national figures) and for a Cantabria frame of `fecha` and the two case columns; column order is stated as membership.
- EtlMain.DeacumulateCells: requires two rows or more and no text in the running totals; with text the loop raises TypeError (`Series.DeltasRunExactly`), which this lemma does not restate.
- Series.StepValue: the variation step on a row whose previous value is not positive assigns `None` at `df.loc[i, 'variacion']`; on a missing label pandas would add a new row, the model raises KeyError. The script runs the loop only on frames labelled 0..n-1, where every label exists.
- MainScript.VariationRates: requires numeric `casos` cells and two rows or more.
- MainScript.NationalDailyCells: requires integer running totals (the national file has them) and two rows or more; `Series.DeltaCells` states the general NaN case.

## Findings

| source | as written | input that shows it | evidently intended | confidence | as-written member | corrected member |
|---|---|---|---|---|---|---|
| etl/main.py:72 | `normalize_ccaa` drops the `Total` rows without relabelling, and `delay_date` (etl/main.py:78-79) then reads labels 0..n-1 | a regional file of four rows labelled 0..3 whose row 1 has `CCAA == 'Total'`: the normalized frame has three rows labelled 0, 2, 3, and the loop's `df.loc[1, 'fecha']` raises KeyError | relabel the kept rows 0..k-1 (`reset_index(drop=True)`) so every region's dates are shifted | not executed | EtlMain.TotalRowBreaksDelay | EtlMain.RelabelledDelayOk |
| etl/main.py:520-521 | `espana = delay_date(data[nacional])` delays the same frame object that etl/main.py:193 already delayed in place | a national file whose first `fecha` is 2020-03-02: `cant_esp` shows it as 2020-02-29, two days back, while `nacional` showed 2020-03-01 | one day back, as for every other series | not executed | MainScript.EspanaTwoDaysBack | MainScript.EspanaOneDayBack |
