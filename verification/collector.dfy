/** The command-line collector, `StaffDataCollector` and `main`, as a state
    machine over two stores: the CSV file and the SQLite table `staff`. The
    terminal is a finite sequence of typed lines and the clock a function
    from the loop iteration to the moment `datetime.now()` returns there.
    A store operation that Python would abort with an exception returns the
    store as it was left at that point together with a `Fault`. */
module Collector {

  import opened Wrappers
  import opened Text
  import opened Timestamp
  import opened Csv

  /** Columns of the CSV file `ensure_storage_exists` creates; also the keys
      of the dictionary `collect_data` returns. */
  const CsvHeader: Row := ["Full Name", "Staff Number", "Staff Cadre", "Date Added"]

  /** Columns of the CSV file `export_to_csv` writes: the names the SQL query
      selects, since pandas takes the header from the result set. */
  const ExportHeader: Row := ["full_name", "staff_number", "staff_cadre", "date_added"]

  lemma CsvHeaderDistinct()
    ensures Distinct(CsvHeader)
  {
  }

  /** None of the collector's column names is one the export writes. */
  lemma HeadersDisjoint()
    ensures forall i :: 0 <= i < |CsvHeader| ==> CsvHeader[i] !in ExportHeader
  {
  }

  /** First id SQLite's AUTOINCREMENT hands out in an empty table. */
  const FirstId: nat := 1

  /** The dictionary `collect_data` returns. */
  datatype Record = Record(fullName: string, staffNumber: string, staffCadre: string, dateAdded: string)

  /** A row of table `staff`. */
  datatype DbRow = DbRow(id: nat, fullName: string, staffNumber: string, staffCadre: string, dateAdded: string)

  /** Table `staff` in rowid order; `nextId` is the id the next insert gets
      (SQLite keeps it in `sqlite_sequence`, so ids are never reused). */
  datatype Table = Table(rows: seq<DbRow>, nextId: nat)

  /** Both stores; `None` is a file or table that does not exist. */
  datatype Store = Store(csv: Option<CsvFile>, table: Option<Table>)

  datatype Fault =
    | EndOfInput   // `input()` raised EOFError: the terminal has no more lines
    | NoSuchTable  // sqlite3.OperationalError: table `staff` is missing
    | NoCsvFile    // `pd.read_csv` raised FileNotFoundError

  /** The store after an operation and the exception that ended it, if any. */
  datatype Step = Step(store: Store, fault: Option<Fault>)

  /** The record's values in the order of its keys, `CsvHeader`. */
  function CsvRow(r: Record): (row: Row)
    ensures |row| == |CsvHeader|
  {
    [r.fullName, r.staffNumber, r.staffCadre, r.dateAdded]
  }

  /** `SELECT full_name, staff_number, staff_cadre, date_added` of one row. */
  function Projection(d: DbRow): Row {
    [d.fullName, d.staffNumber, d.staffCadre, d.dateAdded]
  }

  function ProjectAll(rows: seq<DbRow>): (r: seq<Row>)
    ensures |r| == |rows|
    ensures forall i :: 0 <= i < |rows| ==> r[i] == Projection(rows[i])
  {
    if rows == [] then [] else [Projection(rows[0])] + ProjectAll(rows[1..])
  }

  /** Ids grow along the table and stay below the counter. */
  ghost predicate TableOk(t: Table) {
    && FirstId <= t.nextId
    && (forall i :: 0 <= i < |t.rows| ==> FirstId <= t.rows[i].id < t.nextId)
    && (forall i, j :: 0 <= i < j < |t.rows| ==> t.rows[i].id < t.rows[j].id)
  }

  // ---------------------------------------------------------------------------
  // ensure_storage_exists
  // ---------------------------------------------------------------------------

  /** `ensure_storage_exists`: a header-only CSV if the file is absent, an
      empty table if it does not exist; whatever exists is left as it is. */
  function EnsureStorageExists(s: Store): (r: Store)
    ensures r.csv.Some? && r.table.Some?
    ensures s.csv.Some? ==> r.csv == s.csv
    ensures s.table.Some? ==> r.table == s.table
    ensures s.csv.None? ==> r.csv.value == CsvFile(CsvHeader, [])
    ensures s.table.None? ==> r.table.value.rows == [] && TableOk(r.table.value)
  {
    Store(CreateIfAbsent(s.csv, CsvHeader),
          if s.table.Some? then s.table else Some(Table([], FirstId)))
  }

  /** Running `ensure_storage_exists` again changes nothing. */
  lemma EnsureStorageIdempotent(s: Store)
    ensures EnsureStorageExists(EnsureStorageExists(s)) == EnsureStorageExists(s)
  {
  }

  // ---------------------------------------------------------------------------
  // validate_input and collect_data
  // ---------------------------------------------------------------------------

  /** The line `validate_input` prints for a blank answer. */
  function EmptyMessage(fieldName: string): string {
    fieldName + " cannot be empty!"
  }

  /** A line `validate_input` rejects: nothing but whitespace, which is to
      say empty once stripped (`Text.TrimEmptyIff`). */
  predicate Blank(line: string) {
    AllSpace(line)
  }

  /** The answer `validate_input` settles on, the complaints it printed on
      the way, and the position of the first line left unread. */
  datatype Validated = Validated(value: string, complaints: seq<string>, next: nat)

  /** The position of the first non-blank line from `pos` on: the line
      whose answer `validate_input` accepts. */
  function FirstNonBlank(lines: seq<string>, pos: nat): (r: Option<nat>)
    requires pos <= |lines|
    ensures r.None? ==> forall k :: pos <= k < |lines| ==> Blank(lines[k])
    ensures r.Some? ==> pos <= r.value < |lines| && !Blank(lines[r.value])
    ensures r.Some? ==> forall k :: pos <= k < r.value ==> Blank(lines[k])
    decreases |lines| - pos
  {
    if pos == |lines| then None
    else if !Blank(lines[pos]) then Some(pos)
    else FirstNonBlank(lines, pos + 1)
  }

  /** `validate_input`, reading the typed lines from position `pos`: keep
      reading until a line is non-empty after `strip()`, complaining once per
      blank line; `None` when the lines run out first (EOFError). */
  function ValidateInput(lines: seq<string>, pos: nat, fieldName: string): (r: Option<Validated>)
    requires pos <= |lines|
    ensures r.None? ==> forall k :: pos <= k < |lines| ==> Blank(lines[k])
    ensures r.Some? ==>
      var v := r.value;
      && pos < v.next <= |lines|
      && !Blank(lines[v.next - 1])
      && v.value == Trim(lines[v.next - 1]) && v.value != []
      && (forall k :: pos <= k < v.next - 1 ==> Blank(lines[k]))
      && |v.complaints| == v.next - 1 - pos
      && (forall k :: 0 <= k < |v.complaints| ==> v.complaints[k] == EmptyMessage(fieldName))
  {
    match FirstNonBlank(lines, pos)
    case None => None
    case Some(i) =>
      TrimEmptyIff(lines[i]);
      Some(Validated(Trim(lines[i]), seq(i - pos, _ => EmptyMessage(fieldName)), i + 1))
  }

  /** The answer `validate_input` returns is stripped and non-empty. */
  lemma ValidatedIsTrimmed(lines: seq<string>, pos: nat, fieldName: string)
    requires pos <= |lines| && ValidateInput(lines, pos, fieldName).Some?
    ensures var v := ValidateInput(lines, pos, fieldName).value.value;
      v != [] && Trim(v) == v && !IsSpace(v[0]) && !IsSpace(v[|v| - 1])
  {
    var v := ValidateInput(lines, pos, fieldName).value;
    TrimIsTrimOf(lines[v.next - 1]);
    TrimIdempotent(lines[v.next - 1]);
  }

  /** The answer a reader of the terminal sees on one line: none if the line
      is blank, else the line stripped. */
  function Answer(line: string): seq<string> {
    if Blank(line) then [] else [Trim(line)]
  }

  /** The answers on the lines in `[lo, hi)`, in order. */
  function Answers(lines: seq<string>, lo: nat, hi: nat): seq<string>
    requires lo <= hi <= |lines|
    decreases hi - lo
  {
    if lo == hi then [] else Answers(lines, lo, hi - 1) + Answer(lines[hi - 1])
  }

  lemma {:induction false} AnswersSplit(lines: seq<string>, lo: nat, mid: nat, hi: nat)
    requires lo <= mid <= hi <= |lines|
    ensures Answers(lines, lo, hi) == Answers(lines, lo, mid) + Answers(lines, mid, hi)
    decreases hi - mid
  {
    if mid < hi {
      AnswersSplit(lines, lo, mid, hi - 1);
    }
  }

  lemma {:induction false} AnswersOfBlanks(lines: seq<string>, lo: nat, hi: nat)
    requires lo <= hi <= |lines|
    requires forall k :: lo <= k < hi ==> Blank(lines[k])
    ensures Answers(lines, lo, hi) == []
    decreases hi - lo
  {
    if lo < hi {
      AnswersOfBlanks(lines, lo, hi - 1);
    }
  }

  /** The lines `validate_input` consumes hold exactly one answer, the one it
      returns. */
  lemma ValidateInputReadsOneAnswer(lines: seq<string>, pos: nat, fieldName: string)
    requires pos <= |lines| && ValidateInput(lines, pos, fieldName).Some?
    ensures var v := ValidateInput(lines, pos, fieldName).value;
      Answers(lines, pos, v.next) == [v.value]
  {
    var v := ValidateInput(lines, pos, fieldName).value;
    AnswersOfBlanks(lines, pos, v.next - 1);
  }

  /** Three stretches holding one answer each hold the three answers. */
  lemma AnswersOfThree(lines: seq<string>, p0: nat, p1: nat, p2: nat, p3: nat)
    requires p0 <= p1 <= p2 <= p3 <= |lines|
    requires |Answers(lines, p0, p1)| == |Answers(lines, p1, p2)| == |Answers(lines, p2, p3)| == 1
    ensures Answers(lines, p0, p3)
            == [Answers(lines, p0, p1)[0], Answers(lines, p1, p2)[0], Answers(lines, p2, p3)[0]]
  {
    AnswersSplit(lines, p0, p1, p3);
    AnswersSplit(lines, p1, p2, p3);
    SingletonsConcat(Answers(lines, p0, p1), Answers(lines, p1, p2), Answers(lines, p2, p3));
  }

  lemma SingletonsConcat<T>(a: seq<T>, b: seq<T>, c: seq<T>)
    requires |a| == |b| == |c| == 1
    ensures a + (b + c) == [a[0], b[0], c[0]]
  {
  }

  /** What `collect_data` returns, the complaints printed while collecting,
      and the position of the first line left unread. */
  datatype Collected = Collected(record: Record, complaints: seq<string>, next: nat)

  /** `collect_data`: three validated answers and the current time. */
  function CollectData(lines: seq<string>, pos: nat, now: DateTime): (r: Option<Collected>)
    requires pos <= |lines|
    ensures r.Some? ==> pos + 3 <= r.value.next <= |lines|
    ensures r.Some? ==> r.value.record.dateAdded == Format(now)
  {
    match ValidateInput(lines, pos, "Full Name")
    case None => None
    case Some(a) =>
      match ValidateInput(lines, a.next, "Staff Number")
      case None => None
      case Some(b) =>
        match ValidateInput(lines, b.next, "Staff Cadre")
        case None => None
        case Some(c) =>
          Some(Collected(Record(a.value, b.value, c.value, Format(now)),
                         a.complaints + b.complaints + c.complaints, c.next))
  }

  /** `collect_data` reads up to the third answer typed and no further:
      name, number and cadre are those three answers, in order. */
  lemma CollectDataReadsThreeAnswers(lines: seq<string>, pos: nat, now: DateTime)
    requires pos <= |lines| && CollectData(lines, pos, now).Some?
    ensures var c := CollectData(lines, pos, now).value;
      && !Blank(lines[c.next - 1])
      && Answers(lines, pos, c.next) == [c.record.fullName, c.record.staffNumber, c.record.staffCadre]
  {
    var a := ValidateInput(lines, pos, "Full Name").value;
    var b := ValidateInput(lines, a.next, "Staff Number").value;
    var c := ValidateInput(lines, b.next, "Staff Cadre").value;
    ThreeAnswers(lines, pos, a, b, c);
  }

  /** Three validated answers in a row are the three answers on the lines
      they consumed. */
  lemma ThreeAnswers(lines: seq<string>, pos: nat, a: Validated, b: Validated, c: Validated)
    requires pos <= |lines|
    requires ValidateInput(lines, pos, "Full Name") == Some(a)
    requires ValidateInput(lines, a.next, "Staff Number") == Some(b)
    requires ValidateInput(lines, b.next, "Staff Cadre") == Some(c)
    ensures Answers(lines, pos, c.next) == [a.value, b.value, c.value]
  {
    ValidateInputReadsOneAnswer(lines, pos, "Full Name");
    ValidateInputReadsOneAnswer(lines, a.next, "Staff Number");
    ValidateInputReadsOneAnswer(lines, b.next, "Staff Cadre");
    AnswersOfThree(lines, pos, a.next, b.next, c.next);
  }

  /** Each value `collect_data` returns is stripped and non-empty. */
  lemma CollectDataTrimmed(lines: seq<string>, pos: nat, now: DateTime)
    requires pos <= |lines| && CollectData(lines, pos, now).Some?
    ensures var r := CollectData(lines, pos, now).value.record;
      && Trim(r.fullName) == r.fullName != []
      && Trim(r.staffNumber) == r.staffNumber != []
      && Trim(r.staffCadre) == r.staffCadre != []
  {
    var a := ValidateInput(lines, pos, "Full Name").value;
    var b := ValidateInput(lines, a.next, "Staff Number").value;
    ValidatedIsTrimmed(lines, pos, "Full Name");
    ValidatedIsTrimmed(lines, a.next, "Staff Number");
    ValidatedIsTrimmed(lines, b.next, "Staff Cadre");
  }

  // ---------------------------------------------------------------------------
  // save_data and export_to_csv
  // ---------------------------------------------------------------------------

  /** `save_data`: insert into `staff` (committed at once), then read the CSV,
      concatenate the record's dictionary and write it back. */
  function SaveData(s: Store, rec: Record): (r: Step)
    ensures r.fault.None? <==> s.table.Some? && s.csv.Some?
    ensures s.table.None? ==> r.store == s
    ensures s.table.Some? ==>
      r.store.table.Some? && |r.store.table.value.rows| == |s.table.value.rows| + 1
    ensures r.store.csv.Some? <==> s.csv.Some?
    ensures r.fault.None? ==> |r.store.csv.value.rows| == |s.csv.value.rows| + 1
  {
    if s.table.None? then Step(s, Some(NoSuchTable))
    else
      var t := s.table.value;
      var row := DbRow(t.nextId, rec.fullName, rec.staffNumber, rec.staffCadre, rec.dateAdded);
      var inserted := s.(table := Some(Table(t.rows + [row], t.nextId + 1)));
      if s.csv.None? then Step(inserted, Some(NoCsvFile))
      else Step(inserted.(csv := Some(AppendRecord(s.csv.value, CsvHeader, CsvRow(rec)))), None)
  }

  /** With both stores present a save succeeds and extends each store by
      one row. */
  lemma SaveDataSucceeds(s: Store, rec: Record)
    requires s.csv.Some? && s.table.Some?
    ensures var t := s.table.value;
      SaveData(s, rec) == Step(Store(Some(AppendRecord(s.csv.value, CsvHeader, CsvRow(rec))),
        Some(Table(t.rows + [DbRow(t.nextId, rec.fullName, rec.staffNumber, rec.staffCadre, rec.dateAdded)], t.nextId + 1))), None)
  {
  }

  /** A save that reaches the table adds exactly one row, at the end, with a
      fresh id above every existing one and the record's four values; the
      rows that were there are unchanged and the id invariant is kept. */
  lemma SaveDataInsertsOneRow(s: Store, rec: Record)
    requires s.table.Some? && TableOk(s.table.value)
    ensures var r := SaveData(s, rec);
      var before := s.table.value.rows;
      var after := r.store.table.value.rows;
      && r.store.table.Some?
      && |after| == |before| + 1
      && after[..|before|] == before
      && (forall i :: 0 <= i < |before| ==> before[i].id < after[|before|].id)
      && Projection(after[|before|]) == CsvRow(rec)
      && TableOk(r.store.table.value)
  {
  }

  /** A successful save into a file with the collector's columns appends
      exactly one CSV row, at the end, carrying the same four values as the
      new table row; header and earlier rows are kept. */
  lemma SaveDataAppendsCsvRow(s: Store, rec: Record)
    requires SaveData(s, rec).fault.None?
    requires s.csv.Some? ==> s.csv.value.header == CsvHeader
    ensures var r := SaveData(s, rec);
      && s.csv.Some? && s.table.Some?
      && r.store.csv.value == CsvFile(CsvHeader, s.csv.value.rows + [CsvRow(rec)])
      && r.store.csv.value.rows[|s.csv.value.rows|]
         == Projection(r.store.table.value.rows[|s.table.value.rows|])
  {
    CsvHeaderDistinct();
    AppendRecordSameColumns(s.csv.value, CsvHeader, CsvRow(rec));
  }

  /** The two ways `save_data` can fail: without the table nothing changes;
      without the CSV file the insert has already been committed, so the
      table holds a row the CSV never gets. */
  lemma SaveDataFaults(s: Store, rec: Record)
    ensures SaveData(s, rec).fault == Some(NoSuchTable) <==> s.table.None?
    ensures s.table.None? ==> SaveData(s, rec).store == s
    ensures SaveData(s, rec).fault == Some(NoCsvFile) <==> s.table.Some? && s.csv.None?
    ensures SaveData(s, rec).fault == Some(NoCsvFile) ==>
      && SaveData(s, rec).store.csv.None?
      && |SaveData(s, rec).store.table.value.rows| == |s.table.value.rows| + 1
  {
  }

  /** A save into a file an earlier run's export wrote (columns `full_name`
      and so on) widens it to eight columns: the collector's four names are
      added after the exported ones, every earlier row gets four empty
      fields, and the new row is empty under the exported names. */
  lemma SaveAfterExportWidensHeader(s: Store, rec: Record)
    requires s.table.Some? && s.csv.Some? && s.csv.value.header == ExportHeader
    ensures var f := SaveData(s, rec).store.csv.value;
      && f.header == ExportHeader + CsvHeader
      && |f.rows| == |s.csv.value.rows| + 1
      && f.rows[|s.csv.value.rows|] == ["", "", "", ""] + CsvRow(rec)
      && (forall i :: 0 <= i < |s.csv.value.rows| ==> f.rows[i] == s.csv.value.rows[i] + ["", "", "", ""])
  {
    CsvHeaderDistinct();
    HeadersDisjoint();
    AppendRecordAllNew(s.csv.value, CsvHeader, CsvRow(rec));
    assert Blanks(4) == ["", "", "", ""];
  }

  /** `export_to_csv`: overwrite the CSV with every table row, id dropped.
      The query has no ORDER BY; the model reads the table in rowid order,
      which is the order SQLite returns for this plain scan. */
  function ExportToCsv(s: Store): (r: Step)
    ensures r.store.table == s.table
    ensures r.fault.None? <==> s.table.Some?
    ensures r.fault.None? ==> r.store.csv.Some? && |r.store.csv.value.rows| == |s.table.value.rows|
  {
    if s.table.None? then Step(s, Some(NoSuchTable))
    else Step(s.(csv := Some(CsvFile(ExportHeader, ProjectAll(s.table.value.rows)))), None)
  }

  /** Whatever the CSV held before an export is gone: the result depends on
      the table alone. */
  lemma ExportDiscardsCsv(s: Store, other: Option<CsvFile>)
    ensures s.table.Some? ==>
      ExportToCsv(s).store.csv == ExportToCsv(s.(csv := other)).store.csv
  {
  }

  /** `save_data` for each record in turn, stopping at the first fault. */
  function SaveAll(s: Store, recs: seq<Record>): Step
    decreases |recs|
  {
    if recs == [] then Step(s, None)
    else
      var step := SaveData(s, recs[0]);
      if step.fault.Some? then step else SaveAll(step.store, recs[1..])
  }

  /** The CSV rows of a list of records. */
  function CsvRows(recs: seq<Record>): (r: seq<Row>)
    ensures |r| == |recs|
    ensures forall i :: 0 <= i < |recs| ==> r[i] == CsvRow(recs[i])
  {
    if recs == [] then [] else [CsvRow(recs[0])] + CsvRows(recs[1..])
  }

  lemma ConcatAssoc<T>(a: seq<T>, b: seq<T>, c: seq<T>)
    ensures (a + b) + c == a + (b + c)
  {
  }

  lemma ProjectAllAppend(rows: seq<DbRow>, d: DbRow)
    ensures ProjectAll(rows + [d]) == ProjectAll(rows) + [Projection(d)]
  {
  }

  /** With both stores present and the collector's columns in the file,
      every save succeeds; the table and the CSV both gain the records' rows,
      in order. */
  lemma {:induction false} SaveAllAppends(s: Store, recs: seq<Record>)
    requires s.csv.Some? && s.table.Some? && s.csv.value.header == CsvHeader
    ensures var r := SaveAll(s, recs);
      && r.fault.None? && r.store.csv.Some? && r.store.table.Some?
      && ProjectAll(r.store.table.value.rows) == ProjectAll(s.table.value.rows) + CsvRows(recs)
      && r.store.csv.value == CsvFile(CsvHeader, s.csv.value.rows + CsvRows(recs))
    decreases |recs|
  {
    if recs != [] {
      var s1 := SaveData(s, recs[0]).store;
      SaveOne(s, recs[0]);
      SaveAllAppends(s1, recs[1..]);
      var rest := CsvRows(recs[1..]);
      assert CsvRows(recs) == [CsvRow(recs[0])] + rest;
      ConcatAssoc(ProjectAll(s.table.value.rows), [CsvRow(recs[0])], rest);
      ConcatAssoc(s.csv.value.rows, [CsvRow(recs[0])], rest);
    }
  }

  /** One save in the terms `SaveAllAppends` needs. */
  lemma SaveOne(s: Store, rec: Record)
    requires s.csv.Some? && s.table.Some? && s.csv.value.header == CsvHeader
    ensures var r := SaveData(s, rec);
      && r.fault.None? && r.store.csv.Some? && r.store.table.Some?
      && ProjectAll(r.store.table.value.rows) == ProjectAll(s.table.value.rows) + [CsvRow(rec)]
      && r.store.csv.value == CsvFile(CsvHeader, s.csv.value.rows + [CsvRow(rec)])
  {
    var t := s.table.value;
    var d := DbRow(t.nextId, rec.fullName, rec.staffNumber, rec.staffCadre, rec.dateAdded);
    SaveDataSucceeds(s, rec);
    SaveDataAppendsCsvRow(s, rec);
    ProjectAllAppend(t.rows, d);
  }

  /** With both stores present every save succeeds, whatever columns the
      file has, and the table's projection gains the records' rows in order. */
  lemma {:induction false} SaveAllTable(s: Store, recs: seq<Record>)
    requires s.csv.Some? && s.table.Some?
    ensures var r := SaveAll(s, recs);
      && r.fault.None? && r.store.csv.Some? && r.store.table.Some?
      && ProjectAll(r.store.table.value.rows) == ProjectAll(s.table.value.rows) + CsvRows(recs)
    decreases |recs|
  {
    if recs != [] {
      var t := s.table.value;
      var d := DbRow(t.nextId, recs[0].fullName, recs[0].staffNumber, recs[0].staffCadre, recs[0].dateAdded);
      SaveDataSucceeds(s, recs[0]);
      ProjectAllAppend(t.rows, d);
      SaveAllTable(SaveData(s, recs[0]).store, recs[1..]);
      var rest := CsvRows(recs[1..]);
      assert CsvRows(recs) == [CsvRow(recs[0])] + rest;
      ConcatAssoc(ProjectAll(t.rows), [CsvRow(recs[0])], rest);
    }
  }

  /** N saves into an empty table followed by an export leave the CSV holding
      exactly those N records, in order, whatever it held before. */
  lemma ExportAfterSaves(s: Store, recs: seq<Record>)
    requires s.csv.Some? && s.table.Some? && s.table.value.rows == []
    ensures var e := ExportToCsv(SaveAll(s, recs).store);
      && e.fault.None?
      && e.store.csv == Some(CsvFile(ExportHeader, CsvRows(recs)))
  {
    SaveAllTable(s, recs);
    assert ProjectAll(s.table.value.rows) + CsvRows(recs) == CsvRows(recs);
  }

  // ---------------------------------------------------------------------------
  // main
  // ---------------------------------------------------------------------------

  /** `input(...).lower() != 'y'` ends the loop; the answer is not stripped. */
  predicate Continue(answer: string) {
    Lower(answer) == "y"
  }

  /** Only a bare `y` or `Y` asks for another staff member. */
  lemma ContinueIff(answer: string)
    ensures Continue(answer) <==> answer == "y" || answer == "Y"
  {
    if Continue(answer) {
      assert LowerChar(answer[0]) == 'y';
    }
  }

  /** How a run of `main` ends: normally after the export, or with the
      exception that stopped it. `saved` counts completed `save_data` calls. */
  datatype Ending =
    | Finished(store: Store, saved: nat)
    | Halted(store: Store, fault: Fault, saved: nat)

  /** What one pass through the body of `while True` leads to: the end of
      `main`, or another pass from the store and line it leaves. */
  datatype Turn = Over(ending: Ending) | Again(store: Store, next: nat)

  /** One pass of the loop of `main`, iteration `k`, at moment `now`:
      collect, save, then either export and stop or go round again. */
  function Round(s: Store, lines: seq<string>, pos: nat, now: DateTime, k: nat): (r: Turn)
    requires pos <= |lines|
    ensures r.Again? ==> pos < r.next <= |lines|
    ensures r.Over? ==> k <= r.ending.saved <= k + 1
    ensures r.Over? && r.ending.Finished? ==> r.ending.saved == k + 1
  {
    match CollectData(lines, pos, now)
    case None => Over(Halted(s, EndOfInput, k))
    case Some(c) =>
      var step := SaveData(s, c.record);
      if step.fault.Some? then Over(Halted(step.store, step.fault.value, k))
      else if c.next == |lines| then Over(Halted(step.store, EndOfInput, k + 1))
      else if Continue(lines[c.next]) then Again(step.store, c.next + 1)
      else
        var e := ExportToCsv(step.store);
        if e.fault.Some? then Over(Halted(e.store, e.fault.value, k + 1)) else Over(Finished(e.store, k + 1))
  }

  /** The `while True` loop of `main` from iteration `k` on, with the typed
      lines read from position `pos`. */
  function Loop(s: Store, lines: seq<string>, pos: nat, clock: nat -> DateTime, k: nat): (r: Ending)
    requires pos <= |lines|
    ensures r.saved >= k
    ensures r.Finished? ==> r.saved > k
    decreases |lines| - pos
  {
    match Round(s, lines, pos, clock(k), k)
    case Over(e) => e
    case Again(t, next) => Loop(t, lines, next, clock, k + 1)
  }

  /** `main`: construct the collector (which ensures storage), then loop. */
  function Main(s: Store, lines: seq<string>, clock: nat -> DateTime): (r: Ending)
    ensures r.Finished? ==> r.saved >= 1
  {
    Loop(EnsureStorageExists(s), lines, 0, clock, 0)
  }

  /** From a store with both parts present, one pass keeps both parts and
      adds one table row per save; it ends normally only after an export
      that leaves the table's projection in the CSV, and otherwise only
      because the terminal ran dry. */
  lemma RoundKeepsStores(s: Store, lines: seq<string>, pos: nat, now: DateTime, k: nat)
    requires pos <= |lines| && s.csv.Some? && s.table.Some?
    ensures match Round(s, lines, pos, now, k)
      case Over(e) =>
        && e.store.table.Some?
        && |e.store.table.value.rows| == |s.table.value.rows| + (e.saved - k)
        && (e.Finished? ==>
              && e.saved == k + 1
              && e.store.csv == Some(CsvFile(ExportHeader, ProjectAll(e.store.table.value.rows))))
        && (e.Halted? ==> e.fault == EndOfInput)
      case Again(t, _) =>
        && t.csv.Some? && t.table.Some?
        && |t.table.value.rows| == |s.table.value.rows| + 1
  {
    match CollectData(lines, pos, now)
    case None =>
    case Some(c) =>
      SaveDataSucceeds(s, c.record);
  }

  /** From a store with both parts present, the loop ends normally exactly
      after an export: the CSV is then the table's projection, with at least
      one record saved, and the table holds one new row per save. */
  lemma {:induction false} LoopFinishes(s: Store, lines: seq<string>, pos: nat, clock: nat -> DateTime, k: nat)
    requires pos <= |lines| && s.csv.Some? && s.table.Some?
    ensures var r := Loop(s, lines, pos, clock, k);
      && r.store.table.Some?
      && |r.store.table.value.rows| == |s.table.value.rows| + (r.saved - k)
      && (r.Finished? ==>
            && r.saved > k
            && r.store.csv == Some(CsvFile(ExportHeader, ProjectAll(r.store.table.value.rows))))
      && (r.Halted? ==> r.fault == EndOfInput)
    decreases |lines| - pos
  {
    RoundKeepsStores(s, lines, pos, clock(k), k);
    match Round(s, lines, pos, clock(k), k)
    case Over(e) =>
      assert Loop(s, lines, pos, clock, k) == e;
    case Again(t, next) =>
      LoopFinishes(t, lines, next, clock, k + 1);
      assert Loop(s, lines, pos, clock, k) == Loop(t, lines, next, clock, k + 1);
  }

  /** A run of `main` either exports once at the end, leaving exactly the
      table's rows in the CSV, or stops because the terminal ran dry; a run
      that starts without a table has exactly `saved` rows in the table. */
  lemma MainOutcome(s: Store, lines: seq<string>, clock: nat -> DateTime)
    ensures var r := Main(s, lines, clock);
      && (r.Halted? ==> r.fault == EndOfInput)
      && r.store.table.Some?
      && (r.Finished? ==>
            && r.saved >= 1
            && r.store.csv == Some(CsvFile(ExportHeader, ProjectAll(r.store.table.value.rows))))
      && (s.table.None? ==> |r.store.table.value.rows| == r.saved)
  {
    LoopFinishes(EnsureStorageExists(s), lines, 0, clock, 0);
  }

  /** Three non-blank lines are read as one member, stripped, with nothing
      left unread before the fourth line. */
  lemma CollectOneMember(name: string, number: string, cadre: string, answer: string, now: DateTime)
    requires !Blank(name) && !Blank(number) && !Blank(cadre)
    ensures var c := CollectData([name, number, cadre, answer], 0, now);
      && c.Some? && c.value.next == 3
      && c.value.record == Record(Trim(name), Trim(number), Trim(cadre), Format(now))
  {
    var lines := [name, number, cadre, answer];
    var a := ValidateInput(lines, 0, "Full Name");
    assert a.Some? && a.value.next == 1;
    var b := ValidateInput(lines, 1, "Staff Number");
    assert b.Some? && b.value.next == 2;
    var c := ValidateInput(lines, 2, "Staff Cadre");
    assert c.Some? && c.value.next == 3;
  }

  /** The first save on a fresh machine gets id 1 and leaves one row in each
      store. */
  lemma FirstSave(rec: Record)
    ensures var d := DbRow(1, rec.fullName, rec.staffNumber, rec.staffCadre, rec.dateAdded);
      SaveData(EnsureStorageExists(Store(None, None)), rec)
      == Step(Store(Some(CsvFile(CsvHeader, [CsvRow(rec)])), Some(Table([d], 2))), None)
  {
    var s0 := Store(Some(CsvFile(CsvHeader, [])), Some(Table([], FirstId)));
    assert EnsureStorageExists(Store(None, None)) == s0;
    var d := DbRow(1, rec.fullName, rec.staffNumber, rec.staffCadre, rec.dateAdded);
    SaveDataSucceeds(s0, rec);
    SaveDataAppendsCsvRow(s0, rec);
    assert [] + [d] == [d] && [] + [CsvRow(rec)] == [CsvRow(rec)];
  }

  /** A first run on a fresh machine that enters one staff member and then
      answers anything but `y` ends with that one member in the table, under
      id 1, and in the exported CSV. */
  lemma OneMemberSession(name: string, number: string, cadre: string, answer: string, clock: nat -> DateTime)
    requires !Blank(name) && !Blank(number) && !Blank(cadre) && !Continue(answer)
    ensures var now := Format(clock(0));
      Main(Store(None, None), [name, number, cadre, answer], clock)
      == Finished(Store(Some(CsvFile(ExportHeader, [[Trim(name), Trim(number), Trim(cadre), now]])),
                        Some(Table([DbRow(1, Trim(name), Trim(number), Trim(cadre), now)], 2))), 1)
  {
    var lines := [name, number, cadre, answer];
    var now := clock(0);
    var s0 := EnsureStorageExists(Store(None, None));
    CollectOneMember(name, number, cadre, answer, now);
    var rec := Record(Trim(name), Trim(number), Trim(cadre), Format(now));
    var d := DbRow(1, Trim(name), Trim(number), Trim(cadre), Format(now));
    FirstSave(rec);
    var s1 := SaveData(s0, rec).store;
    assert Round(s0, lines, 0, now, 0) == Over(Finished(ExportToCsv(s1).store, 1));
    assert ProjectAll([d]) == [CsvRow(rec)];
  }

}
