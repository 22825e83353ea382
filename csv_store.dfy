/** The CSV files both forms keep their records in, seen as stores of parsed rows:
    a file is either missing or a sequence of rows, and a row is its fields in order
    (a blank line reads back as the empty row). */
module CsvStore {
  import opened PyCommon

  type Row = seq<string>

  /** The contents of one file; `None` when the file does not exist. */
  type FileContent = Option<seq<Row>>

  /** The header that `append_row` writes in front of the first row of any file it creates. */
  const IncidentHeader: Row := ["timestamp", "teacher", "student", "behaviour", "notes"]

  /** The rows of a file, a missing file having none. */
  function RowsOf(f: FileContent): seq<Row>
  {
    if f.Some? then f.value else []
  }

  /** `[row[0] for row in rows if row]`: the first field of each non-empty row. */
  function FirstFields(rows: seq<Row>): seq<string>
  {
    if rows == [] then []
    else
      var last := rows[|rows| - 1];
      FirstFields(rows[..|rows| - 1]) + (if last == [] then [] else [last[0]])
  }

  /** A string is among the first fields exactly when some non-empty row starts with it. */
  lemma {:induction false} FirstFieldsMembers(rows: seq<Row>)
    ensures forall x :: x in FirstFields(rows) <==> exists i :: 0 <= i < |rows| && rows[i] != [] && rows[i][0] == x
  {
    if rows != [] {
      var init := rows[..|rows| - 1];
      FirstFieldsMembers(init);
      assert forall i :: 0 <= i < |init| ==> init[i] == rows[i];
    }
  }

  /** The first fields of two files laid end to end are those of each, in order. */
  lemma {:induction false} FirstFieldsConcat(a: seq<Row>, b: seq<Row>)
    ensures FirstFields(a + b) == FirstFields(a) + FirstFields(b)
    decreases |b|
  {
    if b == [] {
      assert a + b == a;
    } else {
      assert (a + b)[..|a + b| - 1] == a + b[..|b| - 1];
      FirstFieldsConcat(a, b[..|b| - 1]);
    }
  }

  /** `read_column`: a missing file gives no entries; otherwise the first field of
      every non-empty row, in file order. */
  function ReadColumn(f: FileContent): seq<string>
  {
    FirstFields(RowsOf(f))
  }

  /** `read_column` gives nothing for a missing file, and otherwise names exactly the
      strings that start a non-empty row. */
  lemma ReadColumnMembers(f: FileContent)
    ensures f.None? ==> ReadColumn(f) == []
    ensures forall x :: x in ReadColumn(f) <==>
              f.Some? && exists i :: 0 <= i < |f.value| && f.value[i] != [] && f.value[i][0] == x
  {
    FirstFieldsMembers(RowsOf(f));
  }

  /** File order: the name of the non-empty row `i` is listed right after the names of
      the rows before it. */
  lemma ReadColumnPositions(rows: seq<Row>, i: int)
    requires 0 <= i < |rows| && rows[i] != []
    ensures |FirstFields(rows[..i])| < |ReadColumn(Some(rows))|
    ensures ReadColumn(Some(rows))[|FirstFields(rows[..i])|] == rows[i][0]
  {
    assert rows == rows[..i] + rows[i..];
    FirstFieldsConcat(rows[..i], rows[i..]);
    assert rows[i..] == [rows[i]] + rows[i + 1..];
    FirstFieldsConcat([rows[i]], rows[i + 1..]);
    assert FirstFields([rows[i]]) == FirstFields([]) + [rows[i][0]];
  }

  /** The file after `append_row(path, row)`: the old rows unchanged and in place,
      the incident header in front when the file was new, and `row` last. */
  function Appended(f: FileContent, row: Row): seq<Row>
  {
    (if f.None? then [IncidentHeader] else f.value) + [row]
  }

  /** `append_row` keeps every old row in place and puts `row` last; a missing file
      becomes exactly the header followed by `row`. */
  lemma AppendedRows(f: FileContent, row: Row)
    ensures f.None? ==> Appended(f, row) == [IncidentHeader, row]
    ensures f.Some? ==> Appended(f, row)[..|f.value|] == f.value
    ensures |Appended(f, row)| == |RowsOf(f)| + (if f.None? then 2 else 1)
    ensures Appended(f, row)[|Appended(f, row)| - 1] == row
  {
  }

  /** The file after a plain `csv.writer(f).writerow(row)` on a file opened for appending. */
  function Written(f: FileContent, row: Row): seq<Row>
  {
    RowsOf(f) + [row]
  }

  /** What `read_column` sees after `append_row`: on a new file the header's
      "timestamp" comes first, whichever file it is; the new row adds its first field. */
  lemma ReadColumnAfterAppend(f: FileContent, row: Row)
    ensures ReadColumn(Some(Appended(f, row)))
         == (if f.None? then ["timestamp"] else ReadColumn(f)) + (if row == [] then [] else [row[0]])
  {
    FirstFieldsConcat(if f.None? then [IncidentHeader] else f.value, [row]);
    if f.None? {
      assert FirstFields([IncidentHeader]) == FirstFields([]) + [IncidentHeader[0]];
    }
  }

  /** What `read_column` sees after a headerless append. */
  lemma ReadColumnAfterWrite(f: FileContent, row: Row)
    ensures ReadColumn(Some(Written(f, row))) == ReadColumn(f) + (if row == [] then [] else [row[0]])
  {
    FirstFieldsConcat(RowsOf(f), [row]);
  }

  /** The files under one directory tree, by path. */
  class FileSystem {
    var files: map<string, seq<Row>>

    constructor (initial: map<string, seq<Row>>)
      ensures files == initial
    {
      files := initial;
    }

    /** The store's stand-in for `exists()` and reading the file with `open`. */
    function Content(path: string): FileContent
      reads this
    {
      if path in files then Some(files[path]) else None
    }

    /** `open(path, "a")` followed by one `writerow(row)`: creates the file when missing. */
    method WriteRow(path: string, row: Row)
      modifies this
      ensures files == old(files)[path := Written(old(Content(path)), row)]
    {
      files := files[path := RowsOf(Content(path)) + [row]];
    }

    /** `append_row(path, row)`: on a file that did not exist, the incident header first. */
    method AppendRow(path: string, row: Row)
      modifies this
      ensures files == old(files)[path := Appended(old(Content(path)), row)]
    {
      var newFile := path !in files;
      if newFile {
        WriteRow(path, IncidentHeader);
        assert files[path] == Written(None, IncidentHeader) == [IncidentHeader];
      }
      WriteRow(path, row);
    }
  }
}
