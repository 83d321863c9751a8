# Registro de faltas — a Dafny model

`app.py` is a Streamlit form that a school uses to record disciplinary absences
("faltas") in an Excel workbook. The workbook holds two sheets:

- "Estudiantes": the roster. Each row has a Cédula, Nombre, Apellido, Año and Mención.
- "Faltas": the absence log. Its nine columns are Cédula, Nombre, Apellido, Año,
  Mención, Fecha, Semana, Falta and Mes.

The form works in five steps:

1. It searches the roster by a free-text query.
2. It offers each match as a label `"{Cédula} - {Nombre} {Apellido}"` and
   recovers the chosen student from the label.
3. When "Registrar faltas" is pressed, it builds one row per selected falta and
   appends them to the log.
4. It completes and reorders the log's columns, then writes the workbook.
5. It counts, for every selected falta, the rows of the log with the same Cédula,
   Falta and Mes. It raises an alert when that count is three or more.

The model consists of six modules:

- `Wrappers` (wrappers.dfy): the `Option` type used for missing sheets and failed lookups.

- `Text` (text.dfy): lower-casing, substring containment (`in` on strings),
  decimal rendering of counts and zero-padded digits.
- `Roster` (roster.dfy): the search, the labels, the splitting of a label and
  the lookup of the chosen student. These are pure functions over
  `seq<Student>`.
- `Calendar` (calendar.dfy): the `Fecha` text (`%Y-%m-%d`) and the `Mes` text
  (`%B`) of a date.
- `Faltas` (faltas.dfy): the log as a `Table` (column names plus rows). It holds
  the construction of the new rows, the concatenation, the completion and
  reordering of the columns, the count and the alert scan. The alert loop is
  the method `CheckRecidivism`, proved against the function `AlertList`.
- `Registro` (registro.dfy): the form as a `Session` object. Its fields are the
  roster, the log held in memory and the log as stored in the workbook. Its
  methods reassign the log step by step, as the script does:
  - `Reload`;
  - `AppendRows`;
  - `NormalizeColumns`, a loop over the nine column names with its invariant;
  - `Save`;
  - `Submit`, which chains all of them.

`AnaLopezScenario` is a four-submission walk-through. The first two submissions
are saved. The third raises exactly one alert, and its write fails. The fourth
starts again from the two saved rows and raises the same alert again.

A row is a `map<string, string>`. A column that the table has but the row has no
key for is an empty (NaN) cell. An empty cell matches no filter value.

Two points where the code's behaviour is narrower than its intent:

- **Splitting the label.** The label gives back the Cédula exactly when the
  Cédula followed by `" -"` contains no `" - "` (`Roster.LabelRoundTrip`).
  Requiring only that the Cédula contain no `" - "` is not enough: a Cédula
  ending in `" -"` comes back cut short (`Roster.NoSeparatorIsNotEnough`).
- **Mes ignores the year.** `Mes` is the month name only, so the count merges the
  same month of different years (`Calendar.SameMesIffSameMonth`). The model
  follows the code here.

## Model

| member | source | states |
|---|---|---|
| Text.LowerChar | app.py:63-67 | No covered capital (ASCII or Latin-1) survives lower-casing, every other character is kept, and ASCII capitals become ASCII small letters. |
| Text.LowerCharIdempotent | app.py:63-67 | Lower-casing a character twice is lower-casing it once. |
| Text.SpanishCapitals | app.py:63-67 | Á É Í Ó Ú Ñ Ü become á é í ó ú ñ ü, their Unicode lower-case letters, and A, N, Z become a, n, z. |
| Text.Lower | app.py:63-67 | `.lower()` keeps the length, leaves no covered capital, and keeps every other character in place. |
| Text.Contains | app.py:65-67 | The empty query is in every string, and a contained query is no longer than the text. Its exact meaning is given by `Text.ContainsIff`. |
| Text.ContainsIff | app.py:65-67 | The `in` test on strings holds exactly when the query occurs at some position of the text. |
| Text.NatToString | app.py:149 | The count in an alert is a non-empty string of digits with no leading zero. |
| Text.NatToStringRoundTrip | app.py:149 | Reading the rendered count back gives the count. |
| Text.PaddedDigits | app.py:111 | A zero-padded date field has exactly the requested width and is all digits. |
| Text.PaddedDigitsRoundTrip | app.py:111 | Zero padding preserves the value of a date field. |
| Roster.Keep | app.py:64-68 | The mask keeps a subsequence of the roster (order kept, nothing added). Every matching row keeps all its copies and every other row is dropped. |
| Roster.Search | app.py:62-70 | An empty query returns the roster unchanged. Any other query returns the in-order subsequence of rows whose lower-cased Cédula, Nombre or Apellido contains the lower-cased query, with their multiplicities. |
| Roster.SearchMembers | app.py:62-68 | For a non-empty query, a student is shown exactly when it is in the roster and the lower-cased query occurs at some position of one of its three lower-cased fields. |
| Roster.Matches | app.py:65-67 | The empty query matches every student, and a matching query is no longer than the longest of the three searched fields. |
| Roster.Label | app.py:74 | The label starts with the Cédula, the separator " - " follows it immediately, and its length is the fields' lengths plus four. |
| Roster.Options | app.py:74 | There is one option per row, in row order, and each option starts with its row's Cédula. |
| Roster.FirstPiece | app.py:78 | The first piece is a prefix of the label. `Roster.FirstPieceSpec` says where it ends. |
| Roster.FirstPieceSpec | app.py:78 | The first piece of a split is a prefix of the label, with no separator starting inside it, followed by the leftmost separator or by the end of the label. |
| Roster.FirstPieceAt | app.py:78 | When the leftmost separator starts at position k, the first piece is the first k characters. |
| Roster.PieceBeforeSeparator | app.py:74-78 | Splitting `c + " - " + rest` gives back `c` exactly when `c + " -"` holds no separator, whatever `rest` is. |
| Roster.LabelRoundTrip | app.py:74-78 | Splitting a student's label gives back its Cédula exactly when the Cédula followed by " -" holds no " - ", whatever the names are. |
| Roster.NoSeparatorIsNotEnough | app.py:74-78 | Counterexample: the Cédula "12 -" holds no " - ", yet its label splits back to "12". |
| Roster.FindByCedula | app.py:79 | The lookup returns the first position whose Cédula equals the id, and it fails exactly when no row has that Cédula. |
| Roster.Resolve | app.py:78-79 | The resolved student is the first roster row carrying the Cédula split off the label. Resolution fails exactly when no roster row carries that Cédula. |
| Roster.SelectionResolves | app.py:73-79 | Any offered option whose Cédula survives the split resolves to the first roster row with that Cédula. With unique Cédulas, that row is the chosen student. |
| Calendar.IsoDate | app.py:111 | Fecha is ten characters: four digits, a dash, two digits, a dash, two digits. |
| Calendar.IsoDateRoundTrip | app.py:111 | Parsing the stored Fecha gives back the chosen date. |
| Calendar.MonthName | app.py:104 | Mes is a name of at least three letters: an upper-case first letter followed by lower-case ones. Distinct months give distinct names (`Calendar.SameMesIffSameMonth`). |
| Calendar.MonthNumber | app.py:104 | A name read back gives a month with that name, and no month is found exactly when no month has that name. |
| Calendar.MonthRoundTrip | app.py:104 | Every month name is read back to its own month. |
| Calendar.SameMesIffSameMonth | app.py:104 | Two dates share their Mes exactly when they fall in the same month, whatever the year. |
| Faltas.CanonicalDistinct | app.py:124 | The nine canonical column names are pairwise different. |
| Faltas.EmptyLog | app.py:54-56 | A missing "Faltas" sheet is replaced by a well-formed log with the nine canonical columns and no rows. |
| Faltas.LoadedLog | app.py:51-56 | Every submission starts from a well-formed log. A missing sheet gives the empty nine-column log. |
| Faltas.NewRow | app.py:106-114 | The row of one falta has exactly the nine columns, and its Cédula, Falta and Mes cells are the split-off Cédula, the falta and the month. |
| Faltas.NewRows | app.py:105-115 | The new frame has one row per selected falta. |
| Faltas.NewRowsShape | app.py:105-115 | Every new row has exactly the nine columns. Row i's Falta is the i-th selection, its Cédula is the split-off id and its Mes is the month. All new rows agree on every column except Falta. |
| Faltas.MergeColumns | app.py:117 | The concatenation's columns start with the log's own columns. Together they are the union of both frames' columns, and no name is repeated when the log's own columns are distinct. |
| Faltas.MergeKnownColumns | app.py:117 | Concatenating a frame whose columns the log already has leaves the log's columns unchanged. |
| Faltas.Concat | app.py:117 | The log grows by exactly the new rows: the old rows come first and unchanged, then the new rows in order, and the old columns remain a prefix. |
| Faltas.ConcatWellFormed | app.py:117 | Appending rows whose cells lie in the nine columns keeps the log well formed. |
| Faltas.AddColumn | app.py:128-129 | `df[col] = ""` appends the column to the column list and gives every row that cell, holding "". Every other cell is kept. |
| Faltas.FilledNone | app.py:127-129 | Before the loop adds a column, the log is unchanged. |
| Faltas.FilledStep | app.py:127-129 | One loop step adds the column, filled with "" in every row, exactly when the log lacks it. Otherwise it changes nothing, and the log stays well formed. |
| Faltas.NormalizedRow | app.py:124-132 | After normalisation a row has only canonical columns. A column that was present keeps its cell, or stays empty. A column that was missing holds "". |
| Faltas.Normalized | app.py:124-132 | The normalised log has exactly the nine columns in canonical order, the same number of rows, and is well formed. Its j-th row is the j-th row normalised (`Faltas.NormalizedRow`). |
| Faltas.Reorder | app.py:132 | The projection has exactly the nine columns in canonical order. Each row keeps exactly its cells in those columns, unchanged. |
| Faltas.FilledThenReordered | app.py:127-132 | The add-missing loop followed by the projection is the normalisation. |
| Faltas.NormalizeIdempotent | app.py:124-132 | Normalising a log that already has the nine canonical columns changes nothing. |
| Faltas.Count | app.py:143-147 | A count never exceeds the number of rows in the log. |
| Faltas.CountAppend | app.py:143-147 | The count over two runs of rows is the sum of their counts. |
| Faltas.CountMatching | app.py:143-147 | Rows counted exactly where the selection holds a falta count as many rows as the selection holds that falta. |
| Faltas.CountNewRows | app.py:105-115 | In the new frame, each falta is counted as many times as it was selected. |
| Faltas.CountNormalized | app.py:124-147 | Completing and reordering the columns loses no counted row. |
| Faltas.AlertMessage | app.py:149 | The alert opens with the warning sign, "Alerta: " and the Cédula, and ends with the month and a full stop. The count and the falta it reports can be read back from it (`Faltas.AlertMessageDeterminesCount`). |
| Faltas.AlertMessageDeterminesCount | app.py:149 | Two alerts for the same Cédula and month are the same text only when they report the same count of the same falta. |
| Faltas.AlertFor | app.py:142-149 | One selected falta gives at most one alert. It gives one exactly when its count is at least three, and that alert carries the count. |
| Faltas.AlertList | app.py:141-149 | The alert list never has more alerts than selections, and none when nothing is selected. |
| Faltas.AlertListSplit | app.py:141-149 | Alerts follow selection order: the alerts for two runs of selections are those of the first followed by those of the second. |
| Faltas.AlertListCharacterised | app.py:141-149 | There is at most one alert per selection. Every selected falta whose count is ≥ 3 is reported with its count, and every alert reports a selected falta whose count is ≥ 3. |
| Faltas.CheckRecidivism | app.py:141-149 | The alert loop returns exactly the specified alert list, and no alerts for zero selections. |
| Faltas.AfterSubmission | app.py:105-132 | After a submission the log has the nine canonical columns, is well formed, and has grown by one row per selection. |
| Faltas.SubmissionAppends | app.py:105-132 | A submission grows the log by one row per selection. On a log with the nine columns it only appends: earlier rows are unchanged, and zero selections leave the log as it was. |
| Faltas.SelectedFaltasCounted | app.py:105-147 | After a submission, a falta's count is at least its earlier count plus the number of times it was selected. Every selected falta therefore counts at least one. |
| Faltas.CountAfterSubmission | app.py:105-147 | On a log with the nine columns, a falta's count after a submission is exactly its earlier count plus its number of selections. |
| Faltas.CountOneMore | app.py:105-147 | Selecting a falta once more raises its count by exactly one. |
| Faltas.SingleAlert | app.py:141-149 | A single selection raises its one alert exactly when its count reaches three. |
| Faltas.ThirdOccurrenceAlerts | app.py:105-149 | Two earlier matching rows plus one more selection raise exactly one alert, with count 3. |
| Faltas.OtherFaltaLeavesCount | app.py:105-147 | Submitting a different falta does not change a falta's count. |
| Registro.Session.constructor | app.py:44-56 | A missing roster sheet is an empty roster. The in-memory log is the stored "Faltas" sheet, or the empty nine-column log when the sheet is missing. |
| Registro.Session.Reload | app.py:51-56 | Each press of the button reads the log again from the workbook, so rows that were never written are lost. |
| Registro.Session.AppendRows | app.py:117 | The in-memory log becomes the old log followed by the new rows, still well formed, and the workbook is untouched. |
| Registro.Session.NormalizeColumns | app.py:123-132 | The column loop and projection leave the normalised log and do not touch the workbook. |
| Registro.Session.Save | app.py:133-138 | A successful write stores the in-memory log. A failed write leaves the workbook as it was. The in-memory log is the same either way. |
| Registro.Session.Submit | app.py:62-149 | There is no student exactly when no roster row carries the Cédula split off the chosen label; then nothing is written. Otherwise the log becomes the reloaded log plus the new rows, normalised, and it is stored only if the write succeeds. The alerts are the alert list over that log, whether or not the save succeeded. |
| Registro.AnaLopezFound | app.py:62-70 | Searching "ana" in a one-student roster finds Ana Lopez by her Nombre. |
| Registro.AnaLopezSelectable | app.py:62-79 | Searching "ana" offers Ana Lopez's label, which resolves back to her. |
| Registro.SubmitPhoneUse | app.py:103-149 | One phone-use submission raises the count by one over the stored log, and alerts with that count once it reaches three. |

## Left out

- Streamlit presentation: headers, messages, success and error banners, and the display of the chosen student's fields. The date, week and falta widgets become the arguments of `Submit`.
- The openpyxl import check and the automatic `pip install` through `subprocess` (app.py:7-19). These are environment set-up.
- The file-existence check, the sheet listing and failures to open the workbook (app.py:29-42). These stop the script before the form appears.
- Reading the sheets (app.py:46, 53). The sheets are the constructor's `Option` inputs.
- Writing the workbook (app.py:133-135). This is a step that succeeds or fails as `writeOk` says. The rewrite of the unchanged "Estudiantes" sheet is not modelled.
- The current date as the default of the date picker. The date is an argument.
- The locale of `strftime("%B")`. Month names are the English ones of the C locale.
- Calendar.IsoDate: years below 1000 are written with four digits. Some C libraries write them unpadded.
- Pandas dtypes. Every cell is text. When Excel loads Cédulas as numbers, the lookup at app.py:79 still matches because it compares `astype(str)`. The alert filter at app.py:144 compares the raw column with the string Cédula, so it matches none of the stored rows. It matches only the rows appended by the current submission, which still hold the string. Each count is then the number of times this submission selected the falta, which is at most one with the multiselect widget, so the alert never fires. The model does not capture this.
- Registro.Session.Reload: reading the "Faltas" sheet back is modelled as returning exactly the table `Save` stored. Pandas' `read_excel` may turn numeric-looking text such as the Cédula "1001" into a number, and "" cells into NaN. `Faltas.ThirdOccurrenceAlerts`, `Registro.SubmitPhoneUse` and `Registro.AnaLopezScenario` therefore hold only when every cell reads back as the same text.
- The defaults of `row.get("Nombre", "")` and `row.get("Apellido", "")` (app.py:66-67) for a roster sheet without those columns. Every `Student` has all five fields.
- `str()` of an empty cell is "nan" in the search at app.py:65-67. Roster cells are never empty in the model.
- Text.LowerChar: lower-casing covers ASCII and Latin-1 capitals only, not the full Unicode case mapping of `str.lower`.
- Duplicate column headers in a loaded sheet. The model's tables have distinct column names, and the constructor requires a well-formed sheet.
- A failed lookup: the script raises an error at `.iloc[0]`. The model returns `NotFound` and does not write the workbook. The log is still reloaded from the workbook, so unsaved rows are dropped, as on any rerun of the script.
- An empty search result shows a message and no form (app.py:153-154). `Submit` requires a chosen option among the matches.
