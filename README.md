# Worker skill roster: cell codec, import, export and validation

This project models the roster table tool of a worker-assignment
system for imaging studies (`scripts/roster_csv_tool.py`). The stored roster maps each worker
to a skill code for every modality and skill. The codes are -1 (excluded),
0 (passive, fallback only), 1 (active) and 2 (weighted, written `w` in a
table). The tool moves that roster to and from a spreadsheet-like table
with one `Worker` column and one `skill_modality` column per slot.

The Dafny model has six modules:

- `Cells`: one table cell, read by `parse_value` into a skill code and
  written back by `format_value`, together with the trimming
  (`str.strip`) and lower-casing they rely on.
- `Roster`: what the commands share. This covers the roster
  (`WorkerData` is hierarchical `modality -> skill -> code` or flat
  `skill_modality -> code`), a table of rows keyed by column name, the
  column naming scheme and the worker name of a row.
- `Import`: the import loop of `import_from_csv`. It has the three merge
  modes (`replace`, `merge`, `add_only`) and the four counters. The loops
  are methods, each proved equal to a definition: the recursive fold
  `ImportRows` for the row loop, the map comprehension `WorkerSlots` for
  one row's entry, and the recursive counts `RowErrors` and `SkillErrors`
  for its rejected cells. The meaning of the fold is stated by
  `ImportedRoster` and by the counter lemmas.
- `Export`: the header and the rows of `export_to_csv`. The header loop
  and one worker's row loops are methods proved equal to recursive
  definitions (`SlotColumns`, `RowOf`). The loop over the workers is
  proved against the predicate `RowsOfRoster` (one `RowOf` per worker,
  none twice), since the roster has no order. Lemmas give the layout and
  contents of the result.
- `Validate`: the column diff and cell check of `validate_csv`.
- `Workflow`: how the commands fit together. A table that passes
  validation imports with no errors. A roster exported and then imported
  in `replace` mode comes back with the same workers when its worker
  names survive the trip (no surrounding white space, not blank). When
  also no two slots share a column name, it comes back slot by slot with
  the same codes. A stored value that is not a skill code comes back as
  0.

The configured skills and modalities are parameters, as are the stored
roster and the table that has been read.

## Model

| member | source | states |
|---|---|---|
| Cells.ParseValue | scripts/roster_csv_tool.py:83-102 | An empty (NaN) cell reads as 0. A number is accepted exactly when it is one of -1, 0, 1, 2, and is kept. Text is accepted exactly when its trimmed, lower-cased form is one of `""`, `nan`, `none`, `w`, `1`, `0`, `-1`, `2`. Every accepted result is a skill code. |
| Cells.BlankTextIsPassive | scripts/roster_csv_tool.py:94-96 | `""`, `nan` and `none`, in any case and with any surrounding white space, read as 0. |
| Cells.WeightedMarker | scripts/roster_csv_tool.py:94-98 | `w` or `W`, with any surrounding white space, reads as the weighted code 2. |
| Cells.ParseIgnoresPadding | scripts/roster_csv_tool.py:94-101 | White space around a text cell never changes whether it is accepted or which code it gives. |
| Cells.ParseIgnoresCase | scripts/roster_csv_tool.py:94-101 | Two texts that agree once lower-cased are accepted alike and give the same code. |
| Cells.StripPadding | scripts/roster_csv_tool.py:94 | White space (Python's `isspace` set) around a text does not change what trimming gives. |
| Cells.StripLeftShape | scripts/roster_csv_tool.py:94 | Trimming the left end removes a run of white space, and what is left is empty or starts with a non-space character. |
| Cells.StripRightShape | scripts/roster_csv_tool.py:94 | Trimming the right end removes a run of white space, and what is left is empty or ends with a non-space character. |
| Cells.StripShape | scripts/roster_csv_tool.py:94 | The text is white space, then the trimmed text, then white space, and the trimmed text is empty or starts and ends with a non-space character. |
| Cells.StripLower | scripts/roster_csv_tool.py:94 | Trimming and lower-casing commute, so the order in which the parser applies them does not matter. |
| Cells.NumberAndTextAgree | scripts/roster_csv_tool.py:88-100 | A number and its decimal text are accepted alike and give the same code. |
| Cells.DecimalSpelling | scripts/roster_csv_tool.py:99-100 | The decimal text of an integer is an accepted spelling exactly when the integer is a skill code. |
| Cells.DecimalIsNormal | scripts/roster_csv_tool.py:109 | The decimal text of an integer is unchanged by trimming and lower-casing. |
| Cells.FormatValue | scripts/roster_csv_tool.py:105-109 | The written text is `w` exactly for the weighted code 2. FormatRoundTrip gives its meaning: what the parser makes of it. |
| Cells.FormatRoundTrip | scripts/roster_csv_tool.py:105-109 | Reading back a formatted value succeeds exactly when the value is a skill code, and then gives that code. |
| Roster.ColumnIsNotWorker | scripts/roster_csv_tool.py:122-125 | A `skill_modality` column name is never `Worker`. |
| Roster.ExpectedColumns | scripts/roster_csv_tool.py:272-275 | The expected columns are exactly `skill_modality` for the configured modalities and skills. |
| Roster.WorkerNotExpected | scripts/roster_csv_tool.py:277 | `Worker` is never an expected column. |
| Roster.WorkerName | scripts/roster_csv_tool.py:196 | A row's worker name is the trimmed text of its `Worker` cell, so it has no white space at either end. |
| Roster.IsBlankName | scripts/roster_csv_tool.py:197 | The names the import ignores, `""` and `nan`. It has no contract of its own; BlankWorkerCell gives its meaning. |
| Roster.BlankWorkerCell | scripts/roster_csv_tool.py:196-198 | A row whose `Worker` cell is empty (NaN) or only white space has a blank name, so the import ignores it. |
| Roster.Lookup | scripts/roster_csv_tool.py:133-145 | The code an entry holds for one slot, hierarchical or flat, 0 when absent. It has no contract of its own; FillModalityValue and Workflow.ExportedSlot give its meaning. |
| Import.Existing | scripts/roster_csv_tool.py:190-191 | The roster the import starts from: empty in `replace`, the stored one otherwise. It has no contract of its own; ImportTable gives its meaning. |
| Import.SlotValue | scripts/roster_csv_tool.py:210-221 | A slot is always a skill code. It is 0 when its column is absent or its cell is rejected, and otherwise it is the code the cell parses to. |
| Import.WorkerSlots | scripts/roster_csv_tool.py:207-221 | A written entry has every configured modality, each with every configured skill, and every value is a skill code. |
| Import.BuildWorkerData | scripts/roster_csv_tool.py:207-221 | The nested loops build exactly WorkerSlots and count exactly the rejected cells of present columns. |
| Import.SkillErrorsZero | scripts/roster_csv_tool.py:210-219 | One modality adds no error exactly when none of its skill cells is rejected. |
| Import.RowErrorsZero | scripts/roster_csv_tool.py:208-219 | A row adds no error exactly when none of its slot cells is rejected. |
| Import.WrittenNamesMeaning | scripts/roster_csv_tool.py:196-223 | A name is written exactly when some row carries it, is not blank, and is not skipped as already stored in `add_only`. |
| Import.KnownCount | scripts/roster_csv_tool.py:204-226 | Rows counted as updates are among the non-blank rows. |
| Import.KnownCountEmpty | scripts/roster_csv_tool.py:190-204 | With nothing stored beforehand (`replace`), no row counts as an update. |
| Import.KnownOrNew | scripts/roster_csv_tool.py:204-228 | Every non-blank row either names a pre-existing worker or a new one. |
| Import.AddOnlyWritesOnlyNew | scripts/roster_csv_tool.py:200-202 | In `add_only`, no stored worker is ever written. |
| Import.ImportedSkip | scripts/roster_csv_tool.py:196-202 | A blank or skipped row leaves the roster as it was. |
| Import.ImportedWrite | scripts/roster_csv_tool.py:207-223 | A processed row replaces its worker's entry with the one built from that row, so a later duplicate overwrites an earlier one. |
| Import.ImportRowsRoster | scripts/roster_csv_tool.py:189-223 | After the rows, the roster holds the starting workers plus the written names. An unwritten starting worker keeps its entry. A written worker holds the entry built from the last row naming it. |
| Import.ImportRowsStats | scripts/roster_csv_tool.py:193-228 | `added` counts processed rows naming a new worker. `updated` counts processed rows naming a known worker (always 0 in `add_only`). `skipped` counts `add_only` rows naming a stored worker. `errors` counts rejected cells of processed rows. |
| Import.ImportAll | scripts/roster_csv_tool.py:195-228 | The row loop computes exactly the fold ImportRows: the same roster and the same counters. |
| Import.ImportTable | scripts/roster_csv_tool.py:185-228 | It fails exactly when there is no `Worker` column. In `replace` the result has exactly the written names. In `merge` and `add_only` every stored worker is kept, and in `add_only` unchanged. `added + updated + skipped` is the number of non-blank rows. In `replace`, `updated` is 0 and every non-blank row is added. It also states the exact updated, skipped and error counts. |
| Export.ModalityColumnsIndex | scripts/roster_csv_tool.py:124-125 | Within one modality, column j is skill j's. |
| Export.ModalityColumnsMembers | scripts/roster_csv_tool.py:124-125 | One modality's columns are exactly its `skill_modality` names. |
| Export.SlotColumnsLength | scripts/roster_csv_tool.py:123-125 | There are \|modalities\| · \|skills\| slot columns. |
| Export.SlotColumnsIndex | scripts/roster_csv_tool.py:123-125 | Skill j of modality i sits at slot i · \|skills\| + j (modalities outer, skills inner). |
| Export.SlotColumnsFrom | scripts/roster_csv_tool.py:123-125 | Every slot column names a configured modality and skill. |
| Export.SlotColumnsHas | scripts/roster_csv_tool.py:123-125 | Every configured modality and skill has its slot column. |
| Export.SlotColumnsMembers | scripts/roster_csv_tool.py:123-125 | A column is a slot column exactly when it names some configured modality and skill. |
| Export.SlotColumnsExpected | scripts/roster_csv_tool.py:123-125 | The slot columns are exactly the expected columns that validation checks. |
| Export.AppendModalityColumns | scripts/roster_csv_tool.py:124-125 | The inner loop appends exactly one modality's columns, in skill order. |
| Export.ExportColumns | scripts/roster_csv_tool.py:121-125 | The header loop builds `Worker` followed by the slot columns. |
| Export.HeaderLength | scripts/roster_csv_tool.py:121-125 | The header has 1 + \|modalities\| · \|skills\| columns, with `Worker` first. |
| Export.HeaderIndex | scripts/roster_csv_tool.py:121-125 | Skill j of modality i is header column 1 + i · \|skills\| + j. |
| Export.HeaderColumns | scripts/roster_csv_tool.py:121-125 | The header names `Worker` and the expected columns, and nothing else. |
| Export.FillModalityKeeps | scripts/roster_csv_tool.py:134-146 | Filling one modality leaves every other column as it was. |
| Export.FillModalityValue | scripts/roster_csv_tool.py:134-146 | Filling one modality writes each of its skills as the formatted entry value, or `"0"` when the entry lacks it. |
| Export.FillRowKeeps | scripts/roster_csv_tool.py:130-146 | Filling a row leaves every non-slot column, including `Worker`, as it was. |
| Export.FillRowCell | scripts/roster_csv_tool.py:130-146 | Filling a row writes every slot column, each with the formatted entry value of some configured slot of that name. |
| Export.FillRowValue | scripts/roster_csv_tool.py:133-146 | When the configuration names distinct columns, each slot holds the formatted entry value, hierarchical or flat, or `"0"` when the entry lacks it. |
| Export.NoSlotIsWorker | scripts/roster_csv_tool.py:130 | No slot column overwrites the worker cell. |
| Export.RowOfExported | scripts/roster_csv_tool.py:130-146 | A worker's row holds its name under `Worker` and has exactly the expected columns besides it. Each of them holds the formatted entry value of some configured slot of that name, and (with distinct columns) of its own slot. |
| Export.ExportModality | scripts/roster_csv_tool.py:134-146 | The inner row loop writes exactly one modality's slots of the entry. |
| Export.ExportRow | scripts/roster_csv_tool.py:130-146 | The row loops build exactly RowOf for the worker's entry. |
| Export.ListedStep | scripts/roster_csv_tool.py:129-148 | Writing one more not-yet-written worker's row keeps the rows one per distinct written worker. |
| Export.ListedDone | scripts/roster_csv_tool.py:129-148 | Once no worker remains, there is one row per worker of the roster, each its RowOf, none twice. |
| Export.ExportRows | scripts/roster_csv_tool.py:128-148 | There is one row per roster worker, each that worker's RowOf, and no worker appears twice. |
| Export.ExportTable | scripts/roster_csv_tool.py:117-148 | It fails exactly on an empty roster. Otherwise the header is `Worker` plus the slot columns, and there is one row per worker, each the worker's RowOf, none twice. |
| Validate.FoundColumns | scripts/roster_csv_tool.py:277 | The found columns are the table's columns other than `Worker`. |
| Validate.ColumnInvalid | scripts/roster_csv_tool.py:292-297 | It collects exactly the rows of one column whose cell is rejected. |
| Validate.InvalidCells | scripts/roster_csv_tool.py:290-297 | It collects exactly the rejected (row, column) cells of the checked columns. |
| Validate.ValidateTable | scripts/roster_csv_tool.py:267-305 | It fails exactly when there is no `Worker` column. Missing = expected − found. Extra = found − expected. A cell is reported exactly when its column is both found and expected and the parser rejects it. |
| Validate.Passed | scripts/roster_csv_tool.py:299-308 | The check passes when there is a `Worker` column and no rejected cell. It has no contract of its own; Workflow.ValidateThenImport gives its meaning. |
| Workflow.CleanCellsNoErrors | scripts/roster_csv_tool.py:210-219 | If no cell of a found and expected column is rejected, the import counts no errors, whatever the mode and the stored roster. |
| Workflow.ValidateThenImport | scripts/roster_csv_tool.py:290-305 | Validation and import fail on the same tables. A table that passes validation imports with no errors. |
| Workflow.Restored | scripts/roster_csv_tool.py:214-218 | What a stored value comes back as after a round trip is always a skill code, and is the value itself when that is a code. |
| Workflow.ExportedName | scripts/roster_csv_tool.py:196-198 | An exported worker name that has no surrounding white space and is not blank is read back unchanged and processed. |
| Workflow.ExportedSlot | scripts/roster_csv_tool.py:138-146 | An exported slot reads back as the entry's code, or as 0 if the entry held a non-code. It is an import error exactly in that second case. |
| Workflow.ExportedWritten | scripts/roster_csv_tool.py:196-223 | Importing an export writes exactly the roster's workers. |
| Workflow.ExportedWorker | scripts/roster_csv_tool.py:207-223 | Importing an export gives each worker, slot by slot, the restored code of its original entry. |
| Workflow.ExportedCellsParse | scripts/roster_csv_tool.py:290-297 | An export of a roster holding only skill codes has no rejected cell, whatever the column names. |
| Workflow.NoBlankCount | scripts/roster_csv_tool.py:196-198 | With no blank names, every row counts as non-blank. |
| Workflow.RoundTripKeys | scripts/roster_csv_tool.py:190-223 | Importing an export in `replace` leaves exactly the roster's workers. |
| Workflow.ExportedNonBlank | scripts/roster_csv_tool.py:196-198 | An export of a roster with exportable names has as many non-blank rows as workers. |
| Workflow.ExportThenImport | scripts/roster_csv_tool.py:121-228 | Exporting a non-empty roster and importing it in `replace` always succeeds. With exportable names, every worker is added once, nothing is updated or skipped, and the result has exactly the same workers. With distinct columns too, every slot holds its restored code. With only skill codes stored, no errors are counted, whatever the column names. |

## Left out

- Reading and writing files is not modelled. This covers the JSON roster file, the YAML configuration with its fallback defaults, the CSV file with its encoding retries, and the time-stamped output name. Skills, modalities, the stored roster and the table as read are parameters, and results are return values.
- Printed messages, warning texts, the truncated lists of missing, extra and invalid entries, `sys.exit` and the command line are not modelled. An error path is an `Err` result.
- `show_preview` is not modelled; it is display only.
- The worker-selection engine in `app.py` is not part of this model.
- The test script `test_api_health.py` is not part of this model.
- Cells.ParseValue: a numeric cell is an integer. Python truncates a float (`int(1.9) == 1`), and that truncation is not modelled. The lemma `NumberAndTextAgree` ties a number to its decimal text instead.
- Cells.ParseValue: `Lower` folds only the ASCII letters. No other character lower-cases to one of the accepted spellings, so acceptance is the same as with Python's full `str.lower`.
- Roster.WorkerData: the source tells a hierarchical entry from a flat one by testing whether its first value is a dictionary. The model tags the entry instead. An empty entry exports as all `"0"` either way.
- Export.ExportRows: a map has no order, so rows come out in an unspecified order. The source follows dictionary insertion order; the contract says only that each worker appears once.
- Export.FillRowValue: it is stated only for configurations whose `skill_modality` names are distinct. When two pairs share a name, the row still follows the source's loop order (the later write wins), and FillRowCell says only that the cell holds the value of one of those pairs.
- Export.RowOfExported: the value of each slot's own cell is stated only for distinct column names; otherwise it states that each cell holds the value of some configured slot of that name, not which one.
- Import.ImportTable: worker names are computed for all rows before the loop rather than inside it. This is the same value per row.
- Import.ImportRowsStats: `added` counts rows, not distinct workers. A new name appearing twice in one table is added twice, as in the source.
- Workflow.ExportThenImport: the table is passed straight from export to import. The CSV text in between is not modelled, and neither is pandas reading `"1"` back as a number; `NumberAndTextAgree` shows that reading a skill cell as a number or as text gives the same result. Worker names are read as given. The round trip is stated only for names with no surrounding white space that are not blank (`""`, `"nan"`): the import trims names and drops blank ones. `ExportableNames` does not exclude names that pandas reads differently: `NA`, `N/A`, `n/a`, `NULL`, `null`, `NaN`, `#N/A`, `<NA>` and similar read back as missing and so become `nan` and are dropped, and numeric-looking names such as `007` or `1e3` come back changed.
- Roster.RosterMap: stored values are integers. JSON strings, floats, booleans and null in the roster file are not modelled, so what export writes for them (`str(value)`) is not covered.
