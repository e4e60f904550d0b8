/** The web front end's `POST /submit` handler and the CSV initialiser it
    calls. The roster is the spreadsheet loaded at start-up, given here as a
    sequence of (name, staff number) rows in sheet order; the form is the
    posted field map; the clock reading is a parameter. The handler either
    re-renders the form with an error (`Rejected`), redirects after storing a
    row (`Accepted`), or fails with HTTP 400 because a form field it reads is
    missing (`BadRequest`). */
module WebApp {

  import opened Wrappers
  import opened Text
  import opened Timestamp
  import opened Csv

  /** The columns of the web CSV file. */
  const Header: Row := ["Full Name", "Staff Number", "Staff Cadre", "Meal Type", "Date Added"]

  lemma HeaderDistinct()
    ensures Distinct(Header)
  {
  }

  datatype RosterEntry = RosterEntry(name: string, staffNumber: string)

  type Roster = seq<RosterEntry>

  type Form = map<string, string>

  datatype Outcome =
    | Rejected(fullName: string, staffNumber: string)
    | Accepted(row: Row)
    | BadRequest(field: string)

  /** What the handler answers and what the CSV file holds afterwards. */
  datatype Response = Response(outcome: Outcome, csv: Option<CsvFile>)

  /** `ensure_csv_exists`. */
  function EnsureCsvExists(f: Option<CsvFile>): (r: Option<CsvFile>)
    ensures r.Some?
    ensures f.Some? ==> r == f
    ensures f.None? ==> r == Some(CsvFile(Header, []))
  {
    CreateIfAbsent(f, Header)
  }

  /** Calling `ensure_csv_exists` again changes nothing. */
  lemma EnsureCsvExistsIdempotent(f: Option<CsvFile>)
    ensures EnsureCsvExists(EnsureCsvExists(f)) == EnsureCsvExists(f)
    ensures EnsureCsvExists(f).value.header == (if f.Some? then f.value.header else Header)
    ensures f.Some? ==> EnsureCsvExists(f).value.rows == f.value.rows
  {
  }

  /** A roster row matches the already normalised input: names equal after
      `lower()`, the roster's staff number after `upper()` equals the input's. */
  predicate Matches(e: RosterEntry, name: string, number: string) {
    Lower(e.name) == Lower(name) && Upper(e.staffNumber) == number
  }

  /** `staff_df[mask].iloc[0]`: the index of the first matching roster row. */
  function FirstMatch(roster: Roster, name: string, number: string): (r: Option<nat>)
    ensures r.Some? ==> r.value < |roster|
  {
    if roster == [] then None
    else if Matches(roster[0], name, number) then Some(0)
    else match FirstMatch(roster[1..], name, number)
      case None => None
      case Some(k) => Some(k + 1)
  }

  /** The mask keeps exactly the matching rows, so `iloc[0]` is the first of
      them, and the selection is empty exactly when no row matches. */
  lemma {:induction false} FirstMatchIsFirst(roster: Roster, name: string, number: string)
    ensures var r := FirstMatch(roster, name, number);
      && (r.Some? ==> Matches(roster[r.value], name, number))
      && (r.Some? ==> forall j :: 0 <= j < r.value ==> !Matches(roster[j], name, number))
      && (r.None? ==> forall j :: 0 <= j < |roster| ==> !Matches(roster[j], name, number))
  {
    if roster != [] && !Matches(roster[0], name, number) {
      FirstMatchIsFirst(roster[1..], name, number);
      var r := FirstMatch(roster, name, number);
      forall j | 0 < j < |roster| ensures roster[j] == roster[1..][j - 1] {
      }
    }
  }

  /** Lines 94-97 of the view: `ensure_csv_exists()`, then read the file,
      concatenate the new row's dictionary and write it back. */
  function StoreRow(csv: Option<CsvFile>, row: Row): (r: CsvFile)
    requires |row| == |Header|
    ensures |r.rows| == |EnsureCsvExists(csv).value.rows| + 1
  {
    AppendRecord(EnsureCsvExists(csv).value, Header, row)
  }

  /** When the file is absent or has the web columns, storing a row keeps
      the header and every earlier row and adds the row at the end. */
  lemma StoreRowAppends(csv: Option<CsvFile>, row: Row)
    requires |row| == |Header|
    requires csv.Some? ==> csv.value.header == Header
    ensures StoreRow(csv, row) == CsvFile(Header, (if csv.Some? then csv.value.rows else []) + [row])
  {
    HeaderDistinct();
    AppendRecordSameColumns(EnsureCsvExists(csv).value, Header, row);
  }

  /** Whatever columns an existing file has, storing a row keeps them first
      and in place, adds the web columns it lacks, keeps every earlier row's
      values, and puts each value under its own column name. */
  lemma StoreRowUnderColumnNames(csv: Option<CsvFile>, row: Row)
    requires |row| == |Header|
    requires csv.Some? ==> Distinct(csv.value.header)
    ensures Appended(EnsureCsvExists(csv).value, Header, row, StoreRow(csv, row))
  {
    HeaderDistinct();
    AppendRecordContents(EnsureCsvExists(csv).value, Header, row);
  }

  /** The `submit` view. */
  function Submit(roster: Roster, form: Form, now: DateTime, csv: Option<CsvFile>): (r: Response)
    ensures !r.outcome.Accepted? ==> r.csv == csv
    ensures r.outcome.Accepted? ==> r.csv.Some? && |r.outcome.row| == |Header|
  {
    if "full_name" !in form then Response(BadRequest("full_name"), csv)
    else if "staff_number" !in form then Response(BadRequest("staff_number"), csv)
    else Admit(roster, form, Trim(form["full_name"]), Upper(Trim(form["staff_number"])), now, csv)
  }

  /** The rest of the view once the name and staff number are normalised:
      the roster lookup, then the two remaining fields and the write. */
  function Admit(roster: Roster, form: Form, name: string, number: string,
                 now: DateTime, csv: Option<CsvFile>): (r: Response)
    ensures !r.outcome.Accepted? ==> r.csv == csv
    ensures r.outcome.Accepted? ==> r.csv.Some? && |r.outcome.row| == |Header|
  {
    match FirstMatch(roster, name, number)
    case None => Response(Rejected(name, number), csv)
    case Some(i) =>
      if "staff_cadre" !in form then Response(BadRequest("staff_cadre"), csv)
      else if "meal_type" !in form then Response(BadRequest("meal_type"), csv)
      else
        var row := [roster[i].name, roster[i].staffNumber, form["staff_cadre"], form["meal_type"], Format(now)];
        Response(Accepted(row), Some(StoreRow(csv, row)))
  }

  /** Past the lookup, only the matched roster row and the cadre and meal
      fields matter: two lookups that pick the same row give the same
      response unless they reject. */
  lemma AdmitDependsOnMatch(roster: Roster, form: Form, form': Form, n1: string, s1: string,
                            n2: string, s2: string, now: DateTime, csv: Option<CsvFile>)
    requires FirstMatch(roster, n1, s1) == FirstMatch(roster, n2, s2)
    requires ("staff_cadre" in form <==> "staff_cadre" in form') && ("meal_type" in form <==> "meal_type" in form')
    requires "staff_cadre" in form ==> form["staff_cadre"] == form'["staff_cadre"]
    requires "meal_type" in form ==> form["meal_type"] == form'["meal_type"]
    ensures var r, r' := Admit(roster, form, n1, s1, now, csv), Admit(roster, form', n2, s2, now, csv);
      && (r.outcome.Rejected? <==> r'.outcome.Rejected?)
      && (!r.outcome.Rejected? ==> r == r')
  {
  }

  // ---------------------------------------------------------------------------
  // What a submission means, stated independently of how `Submit` computes it
  // ---------------------------------------------------------------------------

  /** Some roster row carries this name and staff number, ignoring ASCII case
      and the whitespace around the typed values. */
  ghost predicate Authorised(roster: Roster, fullName: string, staffNumber: string) {
    exists e :: e in roster &&
      Lower(e.name) == Lower(Trim(fullName)) && Upper(e.staffNumber) == Upper(Trim(staffNumber))
  }

  /** Row `i` is the first roster row, in sheet order, that authorises the pair. */
  ghost predicate FirstAuthorising(roster: Roster, i: int, fullName: string, staffNumber: string) {
    && 0 <= i < |roster|
    && Lower(roster[i].name) == Lower(Trim(fullName))
    && Upper(roster[i].staffNumber) == Upper(Trim(staffNumber))
    && forall j :: 0 <= j < i ==>
         !(Lower(roster[j].name) == Lower(Trim(fullName)) && Upper(roster[j].staffNumber) == Upper(Trim(staffNumber)))
  }

  /** Two typed values that differ only in ASCII letter case and in the
      whitespace around them. */
  predicate SameIgnoringCaseAndSpace(a: string, b: string) {
    Lower(Trim(a)) == Lower(Trim(b))
  }

  /** With both identity fields present, a submission is rejected exactly
      when no roster row authorises it; a rejection leaves the CSV alone and
      echoes the trimmed name and the trimmed, upper-cased staff number. */
  lemma SubmitRejectsExactlyUnauthorised(roster: Roster, form: Form, now: DateTime, csv: Option<CsvFile>)
    requires "full_name" in form && "staff_number" in form
    ensures Submit(roster, form, now, csv).outcome.Rejected?
            <==> !Authorised(roster, form["full_name"], form["staff_number"])
    ensures Submit(roster, form, now, csv).outcome.Rejected? ==>
              Submit(roster, form, now, csv) ==
              Response(Rejected(Trim(form["full_name"]), Upper(Trim(form["staff_number"]))), csv)
  {
    var name := Trim(form["full_name"]);
    var number := Upper(Trim(form["staff_number"]));
    FirstMatchIsFirst(roster, name, number);
    match FirstMatch(roster, name, number)
    case None =>
    case Some(i) =>
      assert roster[i] in roster;
  }

  /** An accepted submission stores the first authorising roster row's own
      name and staff number (not the typed ones), the cadre and meal type
      exactly as posted, and the formatted submission time. */
  lemma SubmitStoresFirstMatch(roster: Roster, form: Form, now: DateTime, csv: Option<CsvFile>)
    requires Submit(roster, form, now, csv).outcome.Accepted?
    ensures "full_name" in form && "staff_number" in form && "staff_cadre" in form && "meal_type" in form
    ensures exists i ::
              && FirstAuthorising(roster, i, form["full_name"], form["staff_number"])
              && Submit(roster, form, now, csv).outcome.row
                   == [roster[i].name, roster[i].staffNumber, form["staff_cadre"], form["meal_type"], Format(now)]
  {
    var name := Trim(form["full_name"]);
    var number := Upper(Trim(form["staff_number"]));
    var i := FirstMatch(roster, name, number).value;
    FirstMatchIsFirst(roster, name, number);
    assert FirstAuthorising(roster, i, form["full_name"], form["staff_number"]);
  }

  /** An accepted submission stores its row through `StoreRow`; nothing
      else touches the file. */
  lemma SubmitWritesRow(roster: Roster, form: Form, now: DateTime, csv: Option<CsvFile>)
    requires Submit(roster, form, now, csv).outcome.Accepted?
    ensures var r := Submit(roster, form, now, csv);
      |r.outcome.row| == |Header| && r.csv == Some(StoreRow(csv, r.outcome.row))
  {
  }

  /** Whatever distinct columns the file already has, an accepted submission
      leaves it holding the accepted row appended under the web column names:
      old columns first, the missing web columns after them, every earlier
      row kept and empty under the added columns. */
  lemma SubmitStoresUnderColumnNames(roster: Roster, form: Form, now: DateTime, csv: Option<CsvFile>)
    requires csv.Some? ==> Distinct(csv.value.header)
    ensures var r := Submit(roster, form, now, csv);
      r.outcome.Accepted? ==>
        && |r.outcome.row| == |Header| && r.csv.Some?
        && Appended(EnsureCsvExists(csv).value, Header, r.outcome.row, r.csv.value)
  {
    if Submit(roster, form, now, csv).outcome.Accepted? {
      SubmitWritesRow(roster, form, now, csv);
      StoreRowUnderColumnNames(csv, Submit(roster, form, now, csv).outcome.row);
    }
  }

  /** An accepted submission into a file with the web columns (or none yet)
      leaves the file with the same header, every earlier row, and the stored
      row at the end. */
  lemma SubmitAppendsOneRow(roster: Roster, form: Form, now: DateTime, csv: Option<CsvFile>)
    requires Submit(roster, form, now, csv).outcome.Accepted?
    requires csv.Some? ==> csv.value.header == Header
    ensures var r := Submit(roster, form, now, csv);
      r.csv == Some(CsvFile(Header, (if csv.Some? then csv.value.rows else []) + [r.outcome.row]))
  {
    SubmitWritesRow(roster, form, now, csv);
    StoreRowAppends(csv, Submit(roster, form, now, csv).outcome.row);
  }

  /** The stored `Date Added` has the `YYYY-MM-DD HH:MM:SS` layout whenever
      the clock shows a four-digit year. */
  lemma SubmitDateShape(roster: Roster, form: Form, now: DateTime, csv: Option<CsvFile>)
    requires Valid(now) && 1000 <= now.year
    requires Submit(roster, form, now, csv).outcome.Accepted?
    ensures WellShaped(Submit(roster, form, now, csv).outcome.row[4])
    ensures Parse(Submit(roster, form, now, csv).outcome.row[4]) == Some(now)
  {
    FormatShape(now);
    ParseFormat(now);
  }

  /** Retyping the name or the staff number with other letter case or other
      surrounding whitespace changes nothing about the decision: the same
      outcome kind, and on acceptance (or a missing later field) the very
      same response and CSV. */
  lemma SubmitIgnoresCaseAndSpace(roster: Roster, form: Form, name': string, number': string,
                                  now: DateTime, csv: Option<CsvFile>)
    requires "full_name" in form && "staff_number" in form
    requires SameIgnoringCaseAndSpace(form["full_name"], name')
    requires SameIgnoringCaseAndSpace(form["staff_number"], number')
    ensures var r := Submit(roster, form, now, csv);
      var r' := Submit(roster, form["full_name" := name']["staff_number" := number'], now, csv);
      && (r.outcome.Rejected? <==> r'.outcome.Rejected?)
      && (!r.outcome.Rejected? ==> r == r')
  {
    var form' := form["full_name" := name']["staff_number" := number'];
    assert form'["full_name"] == name' && form'["staff_number"] == number';
    var n1, n2 := Trim(form["full_name"]), Trim(name');
    var s1, s2 := Trim(form["staff_number"]), Trim(number');
    CaseFoldsAgree(s1, s2);
    UpperIdempotent(s1);
    UpperIdempotent(s2);
    assert Upper(s1) == Upper(s2);
    SameFoldSameMatch(roster, n1, n2, Upper(s1));
    RetypeKeepsLaterFields(form, name', number');
    AdmitDependsOnMatch(roster, form, form', n1, Upper(s1), n2, Upper(s2), now, csv);
  }

  /** Retyping the name and the staff number leaves the cadre and meal
      fields as they were. */
  lemma RetypeKeepsLaterFields(form: Form, name': string, number': string)
    ensures var form' := form["full_name" := name']["staff_number" := number'];
      && ("staff_cadre" in form <==> "staff_cadre" in form') && ("meal_type" in form <==> "meal_type" in form')
      && ("staff_cadre" in form ==> form["staff_cadre"] == form'["staff_cadre"])
      && ("meal_type" in form ==> form["meal_type"] == form'["meal_type"])
  {
    assert "staff_cadre" != "full_name" && "staff_cadre" != "staff_number";
    assert "meal_type" != "full_name" && "meal_type" != "staff_number";
  }

  /** Two lookups whose match tests agree on every roster row pick the same
      row. */
  lemma {:induction false} FirstMatchRespectsEquivalence(roster: Roster, n1: string, s1: string, n2: string, s2: string)
    requires forall j :: 0 <= j < |roster| ==> Matches(roster[j], n1, s1) == Matches(roster[j], n2, s2)
    ensures FirstMatch(roster, n1, s1) == FirstMatch(roster, n2, s2)
  {
    if roster != [] {
      var rest := roster[1..];
      forall j | 0 <= j < |rest| ensures Matches(rest[j], n1, s1) == Matches(rest[j], n2, s2) {
        assert rest[j] == roster[j + 1];
      }
      FirstMatchRespectsEquivalence(rest, n1, s1, n2, s2);
    }
  }

  /** Names equal after `lower()` select the same roster row. */
  lemma SameFoldSameMatch(roster: Roster, n1: string, n2: string, number: string)
    requires Lower(n1) == Lower(n2)
    ensures FirstMatch(roster, n1, number) == FirstMatch(roster, n2, number)
  {
    FirstMatchRespectsEquivalence(roster, n1, number, n2, number);
  }

  /** The equivalence really covers what a user may retype: surrounding
      whitespace and upper- or lower-casing the whole value. */
  lemma CaseAndSpaceVariants(a: string, p: string, q: string)
    requires AllSpace(p) && AllSpace(q)
    ensures SameIgnoringCaseAndSpace(a, p + a + q)
    ensures SameIgnoringCaseAndSpace(a, Upper(a))
    ensures SameIgnoringCaseAndSpace(a, Lower(a))
  {
    TrimIgnoresOuterSpace(p, a, q);
    TrimCommutesWithCase(a);
    LowerOfUpper(Trim(a));
    LowerIdempotent(Trim(a));
  }

}
