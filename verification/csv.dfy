/** A CSV file as both front ends use it through pandas: a header row and
    data rows, each a sequence of field values. An empty field is how pandas
    writes a missing value (NaN). Encoding, quoting and type inference on
    reading are not modelled. A file that does not exist is `None`. */
module Csv {

  import opened Wrappers

  type Row = seq<string>

  datatype CsvFile = CsvFile(header: Row, rows: seq<Row>)

  /** Every data row has one field per column. */
  predicate Rectangular(f: CsvFile) {
    forall i :: 0 <= i < |f.rows| ==> |f.rows[i]| == |f.header|
  }

  /** No name occurs twice. */
  predicate Distinct(names: Row) {
    forall i, j :: 0 <= i < j < |names| ==> names[i] != names[j]
  }

  lemma DistinctTail(names: Row)
    requires names != [] && Distinct(names)
    ensures Distinct(names[1..]) && names[0] !in names[1..]
  {
    var rest := names[1..];
    forall i, j | 0 <= i < j < |rest| ensures rest[i] != rest[j] {
      assert rest[i] == names[i + 1] && rest[j] == names[j + 1];
    }
    forall j | 0 <= j < |rest| ensures rest[j] != names[0] {
      assert rest[j] == names[j + 1];
    }
  }

  /** `if not os.path.exists(path): DataFrame(columns=header).to_csv(path)`:
      an absent file becomes a header-only file, an existing one is kept. */
  function CreateIfAbsent(f: Option<CsvFile>, header: Row): (r: Option<CsvFile>)
    ensures r.Some?
    ensures f.Some? ==> r == f
    ensures f.None? ==> r.value.header == header && r.value.rows == []
  {
    if f.Some? then f else Some(CsvFile(header, []))
  }

  /** Creating the file a second time changes nothing, whatever header the
      second attempt would have used. */
  lemma CreateIfAbsentIdempotent(f: Option<CsvFile>, header: Row, other: Row)
    ensures CreateIfAbsent(CreateIfAbsent(f, header), other) == CreateIfAbsent(f, header)
  {
  }

  // ---------------------------------------------------------------------------
  // Appending one dictionary: read_csv, concat, to_csv
  // ---------------------------------------------------------------------------

  /** The value a dictionary with these keys and values holds for `name`;
      the empty field when the key is absent. */
  function Field(keys: Row, values: Row, name: string): string
    requires |keys| == |values|
  {
    if keys == [] then ""
    else if keys[0] == name then values[0]
    else Field(keys[1..], values[1..], name)
  }

  /** A dictionary gives each of its keys the value stored with it, and an
      absent key the empty field. */
  lemma {:induction false} FieldLookup(keys: Row, values: Row, name: string)
    requires |keys| == |values| && Distinct(keys)
    ensures name !in keys ==> Field(keys, values, name) == ""
    ensures forall i :: 0 <= i < |keys| && keys[i] == name ==> Field(keys, values, name) == values[i]
  {
    if keys != [] && keys[0] != name {
      var rest := keys[1..];
      DistinctTail(keys);
      FieldLookup(rest, values[1..], name);
      forall i | 0 <= i < |keys| && keys[i] == name ensures Field(keys, values, name) == values[i] {
        assert rest[i - 1] == keys[i];
      }
    }
  }

  /** The keys that are not yet columns, in key order: the columns
      `pd.concat` adds after the existing ones. */
  function NewColumns(header: Row, keys: Row): (r: Row)
    ensures |r| <= |keys|
  {
    if keys == [] then []
    else (if keys[0] in header then [] else [keys[0]]) + NewColumns(header, keys[1..])
  }

  /** The added columns are exactly the keys the file lacks, each once. */
  lemma {:induction false} NewColumnsMembers(header: Row, keys: Row)
    requires Distinct(keys)
    ensures forall c :: c in NewColumns(header, keys) <==> c in keys && c !in header
    ensures Distinct(NewColumns(header, keys))
  {
    if keys != [] {
      var rest := keys[1..];
      DistinctTail(keys);
      NewColumnsMembers(header, rest);
      assert keys == [keys[0]] + rest;
    }
  }

  /** The added columns come in the order of the keys. */
  lemma {:induction false} NewColumnsInKeyOrder(header: Row, keys: Row)
    requires Distinct(keys)
    ensures InKeyOrder(NewColumns(header, keys), keys)
  {
    if keys != [] {
      var rest := keys[1..];
      var tail := NewColumns(header, rest);
      var nc := NewColumns(header, keys);
      DistinctTail(keys);
      NewColumnsInKeyOrder(header, rest);
      NewColumnsMembers(header, rest);
      var off := |nc| - |tail|;
      assert nc == (if keys[0] in header then [] else [keys[0]]) + tail;
      forall a, b, i, j |
        0 <= a < b < |nc| && 0 <= i < |keys| && 0 <= j < |keys| && nc[a] == keys[i] && nc[b] == keys[j]
        ensures i < j
      {
        assert nc[b] == tail[b - off] && tail[b - off] in rest;
        assert j != 0;
        assert keys[j] == rest[j - 1];
        if a >= off {
          assert nc[a] == tail[a - off] && tail[a - off] in rest;
          assert i != 0;
          assert keys[i] == rest[i - 1];
        }
      }
    }
  }

  /** Keys that are all columns already add nothing. */
  lemma {:induction false} NoNewColumns(header: Row, keys: Row)
    requires forall i :: 0 <= i < |keys| ==> keys[i] in header
    ensures NewColumns(header, keys) == []
  {
    if keys != [] {
      NoNewColumns(header, keys[1..]);
    }
  }

  /** Keys none of which is a column are all added, in order. */
  lemma {:induction false} AllNewColumns(header: Row, keys: Row)
    requires forall i :: 0 <= i < |keys| ==> keys[i] !in header
    ensures NewColumns(header, keys) == keys
  {
    if keys != [] {
      AllNewColumns(header, keys[1..]);
      assert keys == [keys[0]] + keys[1..];
    }
  }

  /** The dictionary laid out along `header`. */
  function RowFor(header: Row, keys: Row, values: Row): (r: Row)
    requires |keys| == |values|
    ensures |r| == |header|
  {
    if header == [] then [] else [Field(keys, values, header[0])] + RowFor(header[1..], keys, values)
  }

  lemma {:induction false} RowForAt(header: Row, keys: Row, values: Row, i: nat)
    requires |keys| == |values| && i < |header|
    ensures RowFor(header, keys, values)[i] == Field(keys, values, header[i])
  {
    if i > 0 {
      RowForAt(header[1..], keys, values, i - 1);
    }
  }

  /** `n` empty fields. */
  function Blanks(n: nat): (r: Row)
    ensures |r| == n && forall i :: 0 <= i < n ==> r[i] == ""
  {
    if n == 0 then [] else Blanks(n - 1) + [""]
  }

  /** Every existing row, given `n` empty fields for the added columns. */
  function Widen(rows: seq<Row>, n: nat): (r: seq<Row>)
    ensures |r| == |rows|
    ensures forall i :: 0 <= i < |rows| ==> r[i] == rows[i] + Blanks(n)
  {
    if rows == [] then [] else [rows[0] + Blanks(n)] + Widen(rows[1..], n)
  }

  /** `pd.concat([read_csv(path), DataFrame([record])], ignore_index=True)`
      written back: the columns are the file's followed by the record's keys
      it lacks; earlier rows are empty in the added columns, and the new row
      is empty in the columns the record has no key for. */
  function AppendRecord(f: CsvFile, keys: Row, values: Row): (r: CsvFile)
    requires |keys| == |values|
    ensures |r.rows| == |f.rows| + 1
  {
    var header := f.header + NewColumns(f.header, keys);
    CsvFile(header, Widen(f.rows, |header| - |f.header|) + [RowFor(header, keys, values)])
  }

  /** The names in `cols` that are keys occur in the same order as in `keys`. */
  ghost predicate InKeyOrder(cols: Row, keys: Row) {
    forall a, b, i, j ::
      0 <= a < b < |cols| && 0 <= i < |keys| && 0 <= j < |keys| && cols[a] == keys[i] && cols[b] == keys[j]
      ==> i < j
  }

  /** `r` is `f` with the dictionary appended: the old columns first and in
      place, then the keys the file lacked in key order and no other name;
      every old row keeps its values and is empty under the added columns;
      the new last row holds the record's value under each of its keys and
      the empty field under every other column. */
  ghost predicate Appended(f: CsvFile, keys: Row, values: Row, r: CsvFile)
    requires |keys| == |values|
  {
    && |f.header| <= |r.header| && r.header[..|f.header|] == f.header
    && (forall c :: c in r.header <==> c in f.header || c in keys)
    && Distinct(r.header)
    && InKeyOrder(r.header[|f.header|..], keys)
    && |r.rows| == |f.rows| + 1
    && (forall i :: 0 <= i < |f.rows| ==> r.rows[i] == f.rows[i] + Blanks(|r.header| - |f.header|))
    && |r.rows[|f.rows|]| == |r.header|
    && (forall i, j :: 0 <= i < |keys| && 0 <= j < |r.header| && r.header[j] == keys[i]
          ==> r.rows[|f.rows|][j] == values[i])
    && (forall j :: 0 <= j < |r.header| && r.header[j] !in keys ==> r.rows[|f.rows|][j] == "")
  }

  /** What an append keeps and what it adds. */
  lemma AppendRecordContents(f: CsvFile, keys: Row, values: Row)
    requires |keys| == |values| && Distinct(keys) && Distinct(f.header)
    ensures Appended(f, keys, values, AppendRecord(f, keys, values))
  {
    var r := AppendRecord(f, keys, values);
    var added := NewColumns(f.header, keys);
    assert r.header == f.header + added;
    NewColumnsMembers(f.header, keys);
    forall i, j | 0 <= i < j < |r.header| ensures r.header[i] != r.header[j] {
      if j < |f.header| {
      } else if i >= |f.header| {
        assert r.header[i] == added[i - |f.header|] && r.header[j] == added[j - |f.header|];
      } else {
        assert r.header[j] in added;
      }
    }
    assert r.header[|f.header|..] == added;
    NewColumnsInKeyOrder(f.header, keys);
    var last := r.rows[|f.rows|];
    assert last == RowFor(r.header, keys, values);
    forall j | 0 <= j < |r.header|
      ensures r.header[j] !in keys ==> last[j] == ""
      ensures forall i :: 0 <= i < |keys| && r.header[j] == keys[i] ==> last[j] == values[i]
    {
      RowForAt(r.header, keys, values, j);
      FieldLookup(keys, values, r.header[j]);
    }
  }

  /** A rectangular file stays rectangular. */
  lemma AppendRecordRectangular(f: CsvFile, keys: Row, values: Row)
    requires |keys| == |values| && Rectangular(f)
    ensures Rectangular(AppendRecord(f, keys, values))
  {
  }

  /** When the record's keys are exactly the file's columns, in order, the
      append is the plain one: same header, the values as the last row. */
  lemma AppendRecordSameColumns(f: CsvFile, keys: Row, values: Row)
    requires |keys| == |values| && Distinct(keys) && f.header == keys
    ensures AppendRecord(f, keys, values) == CsvFile(f.header, f.rows + [values])
  {
    NoNewColumns(f.header, keys);
    assert f.header + NewColumns(f.header, keys) == keys;
    var row := RowFor(keys, keys, values);
    forall i | 0 <= i < |keys| ensures row[i] == values[i] {
      RowForAt(keys, keys, values, i);
      FieldLookup(keys, values, keys[i]);
    }
    assert row == values;
    assert Widen(f.rows, 0) == f.rows by {
      forall i | 0 <= i < |f.rows| ensures Widen(f.rows, 0)[i] == f.rows[i] {
        assert f.rows[i] + Blanks(0) == f.rows[i];
      }
    }
  }

  /** When none of the record's keys is a column yet, the append puts all of
      them after the existing columns: earlier rows get one empty field per
      key, and the new row is empty under every old column. */
  lemma AppendRecordAllNew(f: CsvFile, keys: Row, values: Row)
    requires |keys| == |values| && Distinct(keys)
    requires forall i :: 0 <= i < |keys| ==> keys[i] !in f.header
    ensures AppendRecord(f, keys, values)
            == CsvFile(f.header + keys, Widen(f.rows, |keys|) + [Blanks(|f.header|) + values])
  {
    AllNewColumns(f.header, keys);
    var header := f.header + keys;
    assert |header| - |f.header| == |keys|;
    RowForAllNew(f.header, keys, values);
    assert AppendRecord(f, keys, values).rows == Widen(f.rows, |keys|) + [RowFor(header, keys, values)];
  }

  /** Laid out along old columns followed by all the keys, a dictionary is
      empty under the old columns and then holds its values in key order. */
  lemma RowForAllNew(cols: Row, keys: Row, values: Row)
    requires |keys| == |values| && Distinct(keys)
    requires forall i :: 0 <= i < |keys| ==> keys[i] !in cols
    ensures RowFor(cols + keys, keys, values) == Blanks(|cols|) + values
  {
    var header := cols + keys;
    var row := RowFor(header, keys, values);
    var n := |cols|;
    forall j | 0 <= j < |header| ensures row[j] == (Blanks(n) + values)[j] {
      RowForAt(header, keys, values, j);
      if j < n {
        FieldOfOld(cols, keys, values, j);
      } else {
        assert header[j] == keys[j - n];
        FieldLookup(keys, values, header[j]);
      }
    }
  }

  lemma FieldOfOld(cols: Row, keys: Row, values: Row, j: nat)
    requires |keys| == |values| && Distinct(keys) && j < |cols|
    requires forall i :: 0 <= i < |keys| ==> keys[i] !in cols
    ensures Field(keys, values, cols[j]) == ""
  {
    assert cols[j] !in keys by {
      forall i | 0 <= i < |keys| ensures keys[i] != cols[j] {
        assert keys[i] !in cols;
      }
    }
    FieldLookup(keys, values, cols[j]);
  }

}
