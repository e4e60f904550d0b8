# Staff data intake: a Dafny model

This project models the two front ends of the staff-data intake tool in
`user-data-app/src`:

- **The web form handler** (`web_app.py`, `POST /submit`). It trims the typed
  name and staff number and upper-cases the number. It then looks the pair up
  in the staff roster, ignoring ASCII letter case.
  - If no roster row matches, it re-renders the form and leaves the CSV alone.
  - Otherwise it stores the first matching roster row's own name and number.
    The stored row also holds the posted cadre and meal type and the formatted
    time.
  - The row is stored by re-writing the CSV file through pandas. The file is
    first created with its five column names if it does not exist.
- **The command-line collector** (`app.py`, `StaffDataCollector` and `main`).
  It keeps two stores: a CSV file and the SQLite table `staff`.
  - It reads three non-blank answers per staff member. Each is stripped, and
    the reader complains once per blank line.
  - Each member is inserted into the table and then appended to the CSV.
  - It repeats while the answer to "add another?" lower-cases to `y`.
  - At the end it overwrites the CSV with the table's contents.

Everything is pure: stores are immutable values, and operations are
functions from inputs and old store to new store. The terminal is a finite
sequence of typed lines, running out of which is Python's `EOFError`. The
clock is a function from loop iteration to moment (a `DateTime`). An
exception that aborts a store operation is a `Fault` returned beside the
store as it was left at that point.

Files and modules:

| file | module | contents |
|---|---|---|
| wrappers.dfy | `Wrappers` | `Option` |
| text.dfy | `Text` | ASCII `str.strip()`, `str.lower()`, `str.upper()` |
| timestamp.dfy | `Timestamp` | `strftime("%Y-%m-%d %H:%M:%S")` and a parser proved to invert it |
| csv.dfy | `Csv` | a CSV file as header plus rows; create-if-absent; `read_csv` / `concat` / `to_csv` of one dictionary |
| web_app.dfy | `WebApp` | roster match, `submit`, `ensure_csv_exists` |
| collector.dfy | `Collector` | `ensure_storage_exists`, `validate_input`, `collect_data`, `save_data`, `export_to_csv`, the loop of `main` |

Behaviour of the code worth knowing:

- **The meal type is required.** The web handler reads `request.form['meal_type']`
  unconditionally, so a missing meal type is an HTTP 400 (`BadRequest`). It is
  not an optional field.
- **The export writes the SQL column names as its header:** `full_name`,
  `staff_number`, `staff_cadre`, `date_added`. It does not write the collector's
  `Full Name` and so on. The model keeps this.
  - Consequence: a later `save_data` into that file goes through `pd.concat`
    with different column names. It widens the file to eight columns (the
    lemma `SaveAfterExportWidensHeader`).
  - A run that ends normally exports again and restores four columns. A run
    that stops at end of input leaves the eight-column file.
- **The CSV append is pandas' column union, not a plain row append.** Columns
  the file lacks are added after the existing ones. Missing values are written
  as empty fields. With matching columns it reduces to a plain append
  (`AppendRecordSameColumns`).

## Model

| member | source | states |
|---|---|---|
| WebApp.Submit | user-data-app/src/web_app.py:63-99 | Anything but an acceptance leaves the CSV exactly as it was: rejection, or a missing form field. An acceptance writes a file and stores a five-field row |
| WebApp.SubmitRejectsExactlyUnauthorised | user-data-app/src/web_app.py:64-82 | With name and number posted, a submission is rejected iff no roster row equals the stripped name ignoring case and the stripped number ignoring case. The rejection echoes the stripped name and the stripped, upper-cased number, and the CSV is unchanged |
| WebApp.EnsureCsvExists | user-data-app/src/web_app.py:35-39 | Afterwards the file exists. An existing file is kept as it is; an absent one becomes the five web columns with no rows |
| WebApp.FirstMatch | user-data-app/src/web_app.py:73-85 | The lookup yields a roster index or nothing, never an index past the roster (see `FirstMatchIsFirst` for which index) |
| WebApp.StoreRow | user-data-app/src/web_app.py:94-97 | Storing a row leaves the file with exactly one more row than `ensure_csv_exists` gave it |
| WebApp.FirstMatchIsFirst | user-data-app/src/web_app.py:73-85 | The lookup returns a matching row with no matching row before it, and finds nothing only when no row matches (`iloc[0]` of the boolean mask) |
| WebApp.SubmitStoresFirstMatch | user-data-app/src/web_app.py:84-92 | An accepted row holds the first authorising roster row's own name and number, not the typed ones. It holds cadre and meal type exactly as posted, and the formatted submission time |
| WebApp.AdmitDependsOnMatch | user-data-app/src/web_app.py:84-97 | After the lookup, the response depends only on which roster row matched and on the cadre and meal fields |
| WebApp.SubmitIgnoresCaseAndSpace | user-data-app/src/web_app.py:65-76 | Retyping name or number with other letter case or outer whitespace gives the same accept/reject decision. Unless it rejects, the response and the CSV are the same |
| WebApp.FirstMatchRespectsEquivalence | user-data-app/src/web_app.py:73-85 | Two lookups whose match tests agree on every row of the roster (not on every possible row) pick the same row |
| WebApp.CaseAndSpaceVariants | user-data-app/src/web_app.py:65-66 | Surrounding whitespace and whole-value upper- or lower-casing are among the retypings that equivalence covers |
| WebApp.EnsureCsvExistsIdempotent | user-data-app/src/web_app.py:35-39 | A second `ensure_csv_exists` changes nothing. The file afterwards has the five web columns if it was absent, and otherwise its own header and rows |
| WebApp.SubmitStoresUnderColumnNames | user-data-app/src/web_app.py:86-97 | Into a file with any distinct columns, an accepted submission appends its row by column name. The old columns stay first, the missing web columns follow in key order, and earlier rows keep their values and are empty under the added columns |
| WebApp.StoreRowAppends | user-data-app/src/web_app.py:94-97 | On an absent file or one with the web columns, storing keeps the header and every earlier row and adds the row last |
| WebApp.StoreRowUnderColumnNames | user-data-app/src/web_app.py:94-97 | On a file with any distinct columns, storing keeps the old columns first and adds the missing web columns after them, in key order. Old rows keep their values and are empty under the added columns. The new row has each value under its own column name and is empty elsewhere |
| WebApp.SubmitAppendsOneRow | user-data-app/src/web_app.py:86-97 | An accepted submission into a file with the web columns (or none) leaves header, all earlier rows in order, and exactly one new row at the end |
| WebApp.SubmitDateShape | user-data-app/src/web_app.py:91 | The stored `Date Added` has the `YYYY-MM-DD HH:MM:SS` layout for a four-digit year, and parses back to the clock reading |
| Timestamp.Format | user-data-app/src/web_app.py:91 | `strftime` writes at least 16 characters, and for a real moment the year's numeral plus exactly 15 characters of two-digit fields and separators |
| Timestamp.FormatFields | user-data-app/src/web_app.py:91 | For a four-digit year the text is 19 characters: separators at 4, 7, 10, 13, 16, and each field's numeral in its slot |
| Timestamp.FormatShape | user-data-app/src/app.py:49 | Every timestamp with a four-digit year is well shaped: digits everywhere except the five separators |
| Timestamp.ParseFormat | user-data-app/src/web_app.py:91 | Parsing a written timestamp gives back the moment |
| Timestamp.FormatParse | user-data-app/src/web_app.py:91 | Every text the parser accepts is exactly what `strftime` writes for the moment it denotes |
| Timestamp.DecimalRoundTrip | user-data-app/src/web_app.py:91 | The `%Y` numeral reads back as the year |
| Text.Trim | user-data-app/src/app.py:37 | `strip()` never lengthens a string, and the result neither starts nor ends with whitespace |
| Text.TrimIsTrimOf | user-data-app/src/web_app.py:65 | `strip()` removes exactly the whitespace run at each end: the result is a slice with whitespace only around it, and its first and last characters are not whitespace |
| Text.TrimUnique | user-data-app/src/app.py:37 | Any string with that characterisation is the result of `strip()` |
| Text.TrimIdempotent | user-data-app/src/app.py:37 | Stripping twice is stripping once |
| Text.TrimEmptyIff | user-data-app/src/app.py:37-38 | A stripped answer is falsy (empty) iff the line was whitespace only |
| Text.TrimIgnoresOuterSpace | user-data-app/src/web_app.py:65-66 | Whitespace added around a value does not change its stripped form |
| Text.CaseFoldsAgree | user-data-app/src/web_app.py:74-75 | Equality after `lower()` and equality after `upper()` are the same relation, so both columns are compared ignoring case |
| Text.TrimCommutesWithCase | user-data-app/src/web_app.py:65-66 | `strip()` commutes with `upper()` and with `lower()` |
| Text.Lower | user-data-app/src/web_app.py:74 | `lower()` maps every character through the ASCII lower-case map and keeps the length |
| Text.Upper | user-data-app/src/web_app.py:75 | `upper()` maps every character through the ASCII upper-case map and keeps the length |
| Csv.AppendRecord | user-data-app/src/app.py:71-73 | Read, `concat` one dictionary, write: the file gains exactly one row (see `AppendRecordContents` for what it holds) |
| Csv.CreateIfAbsentIdempotent | user-data-app/src/app.py:15-17 | Creating the file when absent is idempotent, whatever header a second attempt would use |
| Csv.AppendRecordContents | user-data-app/src/app.py:71-73 | Read, `concat` one dictionary, write: old columns first and in place, then the missing keys in key order, no name twice. Each old row is itself followed by empty fields (NaN) under the added columns. The new row holds each key's value under its column and empty fields elsewhere |
| Csv.NewColumnsInKeyOrder | user-data-app/src/app.py:72 | The columns `concat` adds appear in the order of the dictionary's keys |
| Csv.AppendRecordSameColumns | user-data-app/src/web_app.py:95-97 | When the dictionary's keys are the file's columns in order, the append is exactly "same header, the values as a new last row" |
| Csv.AppendRecordAllNew | user-data-app/src/app.py:71-73 | When no key is a column yet, all keys become columns after the old ones. Old rows get empty fields, and the new row is empty under the old columns |
| Csv.AppendRecordRectangular | user-data-app/src/app.py:71-73 | An append keeps every row as wide as the header |
| Csv.FieldLookup | user-data-app/src/app.py:72 | `DataFrame([data])` gives each key its own value and an absent key the empty field |
| Csv.NewColumnsMembers | user-data-app/src/app.py:72 | The columns `concat` adds are exactly the keys the file lacks, each once |
| Collector.EnsureStorageExists | user-data-app/src/app.py:12-32 | Afterwards both stores exist. An existing file or table is kept untouched; an absent file gets the four collector columns and no rows; an absent table is empty with ids starting at 1 |
| Collector.EnsureStorageIdempotent | user-data-app/src/app.py:12-32 | Running `ensure_storage_exists` twice is running it once |
| Collector.FirstNonBlank | user-data-app/src/app.py:36-40 | The line `validate_input` accepts is the first non-blank line from the cursor, or none exists |
| Collector.ValidateInput | user-data-app/src/app.py:34-40 | The value is the stripped first non-blank line and is non-empty. Every line skipped was blank, with exactly one "`<field>` cannot be empty!" per skipped line. Running out of lines first means every remaining line was blank |
| Collector.ValidatedIsTrimmed | user-data-app/src/app.py:37-39 | The accepted value is non-empty, already stripped, and neither starts nor ends with whitespace |
| Collector.ValidateInputReadsOneAnswer | user-data-app/src/app.py:34-40 | The lines `validate_input` consumes hold exactly one answer, by an independent line-by-line reading: the value it returns |
| Collector.CollectData | user-data-app/src/app.py:42-56 | A collected record reads at least three lines and carries the formatted clock reading as `Date Added` |
| Collector.CollectDataReadsThreeAnswers | user-data-app/src/app.py:42-56 | Name, number and cadre are the three successive answers on the lines read, in order. Reading stops right after the third |
| Collector.CollectDataTrimmed | user-data-app/src/app.py:46-48 | Name, number and cadre are each stripped and non-empty |
| Collector.CollectOneMember | user-data-app/src/app.py:42-56 | Three non-blank lines give one record of their stripped forms, with the fourth line unread |
| Collector.SaveData | user-data-app/src/app.py:58-73 | A save succeeds iff both stores exist. Without the table nothing changes. With it, the table gains one row even when the CSV is missing. The CSV exists afterwards iff it did before, and a successful save adds one CSV row |
| Collector.SaveDataInsertsOneRow | user-data-app/src/app.py:58-68 | A save adds exactly one table row at the end. Its id is above every existing id, its four values are the record's, and older rows are unchanged. The increasing-id invariant is kept |
| Collector.SaveDataAppendsCsvRow | user-data-app/src/app.py:58-73 | A successful save into a file with the collector's columns appends exactly one CSV row at the end. That row carries the same four values as the new table row |
| Collector.SaveDataFaults | user-data-app/src/app.py:58-73 | A missing table aborts the save with nothing changed. A missing CSV aborts after the insert is committed, so the table gains a row the CSV never gets |
| Collector.SaveAfterExportWidensHeader | user-data-app/src/app.py:71-82 | Saving into a file an export wrote widens it to eight columns. Earlier rows gain four empty fields, and the new row is empty under the exported names |
| Collector.ExportToCsv | user-data-app/src/app.py:77-84 | An export leaves the table alone, fails iff the table is missing, and otherwise writes one CSV row per table row |
| Collector.ExportDiscardsCsv | user-data-app/src/app.py:77-83 | The exported file depends on the table only: whatever the CSV held before is discarded |
| Collector.SaveAllAppends | user-data-app/src/app.py:58-73 | Successive saves all succeed. Both the table's projection and the CSV gain the records' rows in order |
| Collector.SaveAllTable | user-data-app/src/app.py:58-73 | With both stores present, successive saves all succeed whatever columns the file has, and the table's projection gains the records' rows in order |
| Collector.ExportAfterSaves | user-data-app/src/app.py:58-83 | N saves into an empty table, then an export, leave the CSV with exactly those N records, whatever columns and rows the existing file held |
| Collector.ContinueIff | user-data-app/src/app.py:93-95 | The loop goes round again iff the answer is exactly `y` or `Y`. It is not stripped |
| Collector.Round | user-data-app/src/app.py:89-98 | A loop pass either ends `main` having completed at most one more save, or continues strictly further down the input. It ends normally only right after a completed save |
| Collector.Loop | user-data-app/src/app.py:89-95 | From iteration `k` on, the count of completed saves never drops below `k`, and a normal end comes only after at least one more save |
| Collector.Main | user-data-app/src/app.py:86-98 | A run of `main` that ends normally has saved at least one record |
| Collector.RoundKeepsStores | user-data-app/src/app.py:89-98 | From two present stores, a pass that continues keeps both and adds one table row. A pass that ends does so after an export that leaves the table's projection in the CSV, or because input ran out |
| Collector.LoopFinishes | user-data-app/src/app.py:86-98 | The loop ends normally only after an export: the CSV then equals the table's projection, with at least one save. Otherwise it stops only at end of input. The table grows by exactly one row per completed save |
| Collector.MainOutcome | user-data-app/src/app.py:86-98 | A run of `main` either exports once at the end, leaving exactly the table's rows in the CSV, or stops because the input ran dry. On a fresh machine the table holds exactly one row per save |
| Collector.FirstSave | user-data-app/src/app.py:12-32 | The first save on a fresh machine gets id 1 and leaves one row in each store |
| Collector.OneMemberSession | user-data-app/src/app.py:86-98 | A first run entering one member then answering anything but `y` ends with that member, stripped, in the table under id 1 and in the exported CSV |

## Left out

- Flask routing, templates, `redirect` and `render_template`: only the
  response kind and its data are modelled (`Rejected`, `Accepted`,
  `BadRequest`).
- QR code generation (`generate_qr_code`, `/test-qr`), the `__main__` block of
  the web app, sockets, hostname lookup, environment variables, host and port,
  directory creation and file paths: I/O plumbing with nothing to state.
- Loading the roster from Excel: the roster is given as a sequence of
  (name, staff number) pairs in sheet order. Non-string roster cells, on
  which the `.str` accessors would behave differently, are not modelled.
- CSV text encoding, quoting, and the type inference of `read_csv`: a file is
  a header and rows of strings. On a re-read, pandas may turn a numeric-looking
  field such as `007` into `7`; the model keeps the text.
- Module-level statements in `web_app.py:125-135`: they reference an
  undefined `cursor` and are not part of any request path.
- The clock and local time zone: moments are parameters. Output printed to the
  terminal is left out, apart from the "cannot be empty" complaints, which
  the model returns.
- sqlite3 connections: the table is a sequence of rows with an id counter.
  The export query has no `ORDER BY`. The model assumes rows come back in rowid
  (insertion) order, which is what SQLite does for this plain table scan but
  is not guaranteed.
- Concurrency: two requests re-writing the CSV at once can lose an update;
  the model handles one request at a time.
- Unicode: `strip()`, `lower()` and `upper()` are modelled on ASCII only.
  Non-ASCII whitespace and letters are left unchanged.
- Other storage failures: a CSV file that exists but is unreadable, and a
  `staff` table with a different schema.
- Timestamp.FormatShape: proved for four-digit years only. On the GNU C
  library `%Y` writes years below 1000 without padding, so those timestamps
  are shorter than 19 characters.
- Timestamp.FormatFields: likewise only for four-digit years.
- WebApp.SubmitDateShape: likewise only for four-digit years.
- WebApp.SubmitAppendsOneRow: stated for a file that is absent or has the five
  web columns. Any other file is covered by `StoreRowUnderColumnNames`.
- Collector.SaveAllAppends: stated for a file with the collector's four
  columns. A file an export wrote is covered by `SaveAfterExportWidensHeader`
  for a single save, and the table side for any file by `SaveAllTable`.
- Collector.LoopFinishes: stated from a state with both stores present, which
  `main` establishes through `ensure_storage_exists`.
