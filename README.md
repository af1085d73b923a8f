# Minka-Data analytics: acta consolidation, modelled in Dafny

This project models the core of `minka_analitica.py`, the analytics page
of Minka-Data. That page turns uploaded school record documents ("actas")
into two management indicators. CGE 1 counts achievement levels per year.
CGE 2 counts final situations per year.

The model covers three parts of that file:

- **Cell normalisation** (`limpiar`, module `Cells`). A missing or empty
  cell becomes `""`. Otherwise every whitespace run becomes one blank and
  the result is stripped.
- **Per-document accumulation** (`procesar_acta_universal`, modules `Rows`,
  `Acta`, `ActaSteps`, `Accumulation`).
  - The year is the leftmost `202[3-5]` in the file name, or `"2025"` when
    there is none.
  - A row's DNI is rebuilt from the single-digit cells at indices 5..15.
    The row is accepted only when that gives exactly eight digits.
  - Accepted rows fold into a DNI-keyed dictionary of records
    `{AÑO, NOTAS, SIT}`. A record is created on first sighting. Every
    `AD`/`A`/`B`/`C` cell is appended to its `NOTAS`. Its `SIT` is
    overwritten by the row's first situation code (`PRO`, `PG`, `RR`, `R`,
    `F`, `PER`).
  - The dictionary is a class, `Accumulation.Accumulator`, with a `map`
    and the key insertion order. `Acta.DocumentRecords` states the same
    result directly over the cleaned rows. `ProcessActa`, the page and row
    loops, is proved to return exactly `DocumentRecords`.
- **Aggregation** (module `Aggregation`).
  - `data_total` is the per-file record lists joined in file order.
  - `notas_list` is the (year, level) pairs of all notes.
  - The CGE 1 and CGE 2 tables are modelled as the pandas
    `groupby(...).size().unstack(fill_value=0)` pivots: maps from
    (year, category) to a count.
  - With records but no notes at all, `pd.DataFrame([])` has no `AÑO`
    column and the CGE 1 groupby raises. The model returns that as the
    `NoteTableError` outcome.

Conventions:

- Page and table extraction is an input. A document is its file name and
  a sequence of pages. Each page is `None` (no table) or a sequence of
  rows, and each row is a sequence of optional cell strings.
- Whitespace is the ten ASCII characters that Python's `\s` and
  `str.strip()` both treat as whitespace. A digit cell is one ASCII
  character `'0'..'9'`.
- The DNI is only the dictionary key. The returned records carry no DNI,
  exactly as `list(alumnos_acumulados.values())` returns them.

## Model

| member | source | states |
|---|---|---|
| Cells.Limpiar | minka_analitica.py:18-19 | a missing or empty cell gives `""`; any other cell gives its words joined by exactly one blank; every result has no leading or trailing whitespace, no two neighbouring whitespace characters, only blanks as whitespace, and keeps the cell's non-whitespace characters in order |
| Cells.LimpiarIsJoinedWords | minka_analitica.py:19 | collapsing then stripping a text is `' '.join(t.split())`: its words, in order, with one blank between neighbours and nothing else |
| Cells.LimpiarIdempotent | minka_analitica.py:18-19 | cleaning an already cleaned cell returns it unchanged |
| Cells.CollapseSpaces | minka_analitica.py:19 | `re.sub(r'\s+', ' ', t)`: empty iff the input is, and starts with whitespace iff the input does |
| Cells.CollapseShape | minka_analitica.py:19 | the collapse leaves no double whitespace and no whitespace other than blanks, and keeps the non-whitespace characters in order |
| Cells.CollapseWords | minka_analitica.py:19 | the collapse is one blank if the text starts with whitespace, then the text's words joined by exactly one blank, then one blank if whitespace follows the last word: each inner run becomes exactly one blank and no word is merged or dropped |
| Cells.Strip | minka_analitica.py:19 | `strip()`: neither end of the result is whitespace, the non-whitespace characters are kept, and a collapsed string stays collapsed |
| Cells.StripIsSlice | minka_analitica.py:19 | `strip()` returns a contiguous slice of its input with only whitespace before and after it, so nothing inside is removed |
| Rows.CleanRow | minka_analitica.py:34 | the comprehension gives one cleaned cell per extracted cell |
| Rows.CleanRowIsClean | minka_analitica.py:34 | every cell of a cleaned row is what `limpiar` can return and keeps the extracted cell's non-whitespace characters |
| Rows.FirstYearAt | minka_analitica.py:26 | returns the leftmost position at or after `from` where `202[3-5]` matches, and none exactly when there is no match there |
| Rows.DetectYear | minka_analitica.py:25-27 | the year is always `2023`, `2024` or `2025`; it is the text of the leftmost `202[3-5]` match in the file name, and `2025` when there is no match |
| Rows.WindowDigits | minka_analitica.py:36-37 | the rebuilt DNI text consists of digit characters only |
| Rows.Dni | minka_analitica.py:37-39 | an accepted DNI is always eight digit characters |
| Rows.DigitIndices | minka_analitica.py:36-37 | the indices of the single-digit cells strictly between 4 and 16, in increasing order, each such cell included |
| Rows.WindowDigitsSpell | minka_analitica.py:37 | character k of the joined text is the digit of the k-th single-digit cell in the window |
| Rows.DniSpellsDigitCells | minka_analitica.py:36-39 | an accepted DNI has exactly eight window digit cells and spells their digits in index order: each character comes from such a cell and each such cell gives one character |
| Rows.DniIffEightDigitCells | minka_analitica.py:36-39 | a row yields a DNI iff exactly eight of its cells at indices 5..15 are single digits |
| Rows.DniIgnoresCellOutsideWindow | minka_analitica.py:37 | changing a cell outside indices 5..15 never changes the DNI |
| Rows.DniIgnoresTrailingCells | minka_analitica.py:37 | cells after index 15 never change the DNI |
| Rows.Levels | minka_analitica.py:45-47 | only `AD`/`A`/`B`/`C` cells are collected |
| Rows.LevelsAppend | minka_analitica.py:45-47 | the levels of two stretches of cells are those of the first followed by those of the second: cell order is kept |
| Rows.LevelsCount | minka_analitica.py:45-47 | a row contributes each `AD`/`A`/`B`/`C` cell as often as it occurs, duplicates kept, and nothing else |
| Rows.FirstStatus | minka_analitica.py:50-51 | the row's status is the cell at the least index holding a situation code; there is none iff no cell holds one |
| Acta.SitOf | minka_analitica.py:42-51 | a record's `SIT` is always `N/A` or one of `PRO`, `PG`, `RR`, `R`, `F`, `PER` |
| Acta.SitIsLastStatus | minka_analitica.py:50-51 | last row wins: `SIT` is the first situation code of the last row of that DNI that has one, with no priority among codes |
| Acta.SitUnsetIff | minka_analitica.py:42-51 | `SIT` is `N/A` iff no row of that DNI holds a situation code |
| Acta.SitStaysSet | minka_analitica.py:50-51 | once `SIT` is set, later rows never return it to `N/A` |
| Acta.NotesOnlyGrow | minka_analitica.py:45-47 | further rows only append to a record's `NOTAS`; what it held stays a prefix |
| Acta.RejectedRowChangesNothing | minka_analitica.py:39 | a row without a DNI, wherever it stands, changes no record and no key order |
| Acta.TableRows | minka_analitica.py:33-34 | a table gives one cleaned row per extracted row |
| Acta.TableRowsClean | minka_analitica.py:33-34 | every cell of every row of a table has been through `limpiar` |
| Acta.DocRowsClean | minka_analitica.py:29-34 | every cell of every row a document yields, over all its pages, has been through `limpiar` |
| Acta.TablelessPageSkipped | minka_analitica.py:31-32 | a page without a table or with an empty table adds no row, wherever it stands |
| Acta.UnseenRecord | minka_analitica.py:41-42 | a DNI first sighted holds the document's year, no notes and `SIT` `N/A` |
| Acta.DocumentRecords | minka_analitica.py:21-53 | every returned record carries the document's year and a `SIT` that is `N/A` or a situation code |
| Acta.DocumentRecordsShape | minka_analitica.py:26-53 | a document gives exactly one record per distinct accepted DNI; every record carries the document's year, a `SIT` that is `N/A` or a situation code, and only level cells in `NOTAS` |
| ActaSteps.TracksRejectedRow | minka_analitica.py:39 | folding a row without a DNI keeps dictionary and key order as they are and still matching the rows |
| ActaSteps.TracksNewDni | minka_analitica.py:41-51 | a first sighting appends the DNI to the key order and adds a record with the row's levels and status |
| ActaSteps.TracksSeenDni | minka_analitica.py:44-51 | a repeat sighting keeps the key order and extends that record's notes and status only |
| Seqs.FirstSeen | minka_analitica.py:53 | the dictionary's keys: no repeats, and exactly the DNIs that occur |
| Seqs.FirstSeenOrder | minka_analitica.py:53 | keys are listed in the order of their first occurrence |
| Accumulation.Accumulator.constructor | minka_analitica.py:22 | a fresh dictionary is empty and matches no rows |
| Accumulation.Accumulator.Fold | minka_analitica.py:33-51 | one row: with no DNI nothing changes; with a new DNI the key is appended and a record created with the row's levels and status; with a known DNI the levels are appended and `SIT` replaced only when the row has a code; the dictionary keeps matching the rows seen |
| Accumulation.Accumulator.Admit | minka_analitica.py:41-51 | a first sighting appends the DNI to the key order and stores a record with the year, the row's levels and its status or `N/A`; the dictionary keeps matching the rows seen |
| Accumulation.Accumulator.Revisit | minka_analitica.py:44-51 | a repeat sighting keeps the key order, appends the row's levels to that record and replaces `SIT` only when the row has a code; the dictionary keeps matching the rows seen |
| Accumulation.Accumulator.Visit | minka_analitica.py:44-51 | applying a row to an existing record changes that record alone: its notes gain the row's level cells and its `SIT` becomes the row's first code, if any |
| Accumulation.Accumulator.FoldTable | minka_analitica.py:33-34 | folding one table folds its rows, each cleaned with `limpiar`, in table order, and the dictionary keeps matching the rows seen |
| Accumulation.Accumulator.AppendLevels | minka_analitica.py:45-47 | the cell loop appends exactly the row's level cells, in order, to that one record's `NOTAS` |
| Accumulation.Accumulator.Values | minka_analitica.py:53 | the values come out in key insertion order, one per key, each the record its rows determine |
| Accumulation.ProcessActa | minka_analitica.py:21-53 | the page and row loops return exactly `DocumentRecords`: one record per distinct accepted DNI, in first-seen order, with the year, notes and status fixed above |
| Aggregation.AllRecords | minka_analitica.py:59-61 | every record of `data_total` has a year among `2023`, `2024`, `2025` and a `SIT` that is `N/A` or a situation code |
| Aggregation.AllRecordsAppend | minka_analitica.py:60-61 | consolidating two batches in turn gives their record lists joined in order |
| Aggregation.Consolidate | minka_analitica.py:59-61 | `data_total` is every file's records, file after file |
| Aggregation.CollectNotes | minka_analitica.py:67-70 | `notas_list` is every note of every record, tagged with that record's year, in record and note order |
| Aggregation.TagAt | minka_analitica.py:69-70 | a record's notes give one (year, note) pair each, in note order |
| Aggregation.NotePairsSound | minka_analitica.py:67-70 | each pair of `notas_list` is the year and one note of some record |
| Aggregation.NotePairsComplete | minka_analitica.py:67-70 | each note of each record appears in `notas_list` paired with that record's year |
| Aggregation.StatusPairs | minka_analitica.py:74 | the grouped (AÑO, SIT) rows are one per record, in record order, each that record's year and `SIT` |
| Aggregation.PivotKeys | minka_analitica.py:71-74 | the table has a cell for a year and a category exactly when some pair has that year and some pair has that category, zero-filled cells included |
| Aggregation.NoteTable | minka_analitica.py:71 | the CGE 1 table fails exactly when there is no note; otherwise every cell is the count of its (year, level) pair |
| Aggregation.PivotCell | minka_analitica.py:71-74 | every pivot cell, zero-filled ones included, counts its (year, category) pair |
| Aggregation.PivotRowSum | minka_analitica.py:71-74 | a year's row, summed over the categories present, is the number of pairs of that year |
| Aggregation.PivotTotal | minka_analitica.py:71-74 | the whole pivot adds up to the number of pairs |
| Aggregation.NoteCellCount | minka_analitica.py:67-71 | the count for (year, level) is the number of notes of that level in that year's records; a year's notes and all notes are counted the same way |
| Aggregation.NoteTableCounts | minka_analitica.py:67-71 | with at least one note, CGE 1 builds; each cell is that year's count of that level, each year's row sums to that year's notes, and the table sums to all notes |
| Aggregation.StatusCellCount | minka_analitica.py:74 | the count for (year, status) is the number of records of that year with that `SIT`, and a year's pairs are that year's records |
| Aggregation.StatusTableCounts | minka_analitica.py:74 | each CGE 2 cell counts the records of that year with that `SIT`, each year's row sums to that year's record count, and the table sums to the number of records |
| Aggregation.Diagnose | minka_analitica.py:59-74 | no report when no record was extracted; the groupby failure exactly when records exist but none has a note; otherwise the raw records and the CGE 1 and CGE 2 pivots of them |

## Left out

- The Streamlit interface (page setup, session state, uploader, button, balloons, success message, download): presentation only.
- pdfplumber's page and table extraction: a foreign library. Its output is the model's input.
- A document that pdfplumber cannot open: the source has no handler, so the exception ends the whole run. The model takes already extracted pages and has no such failure.
- The Excel workbook and the stacked column chart (lines 76-95): serialisation and rendering.
- pandas mechanics: the sorted row and column order of `unstack`, the `DATOS_CRUDOS` sheet layout and the list-valued `NOTAS` column. Counts are maps from (year, category) pairs. Rows and columns are summed in first-seen order, which gives the same totals.
- Record dictionaries are mutated in place in the source. The model keeps them as values in a `map` that is reassigned. Nothing else holds a reference to them while a document is processed, so no aliasing is lost.
- Unicode: `str.isdigit` accepts non-ASCII digits and `\s` matches non-ASCII whitespace. The model uses ASCII digits and the ten ASCII whitespace characters.
- `limpiar` on non-string values (`str(t)`): extracted cells are strings or `None`.
- `app.py`: interface plus text extraction plus one regular expression. It is not part of this model.
- Features that `minka_analitica.py` does not have are not modelled: name and gender extraction, an eight-digit regex fallback for the DNI, a death and withdrawal priority for the situation, numeric grades 0-20, excluded leading columns, percentage tables and per-document error isolation. In the code, grades come from every cell of the row, and `SIT` is the first code of the last row that has one.
