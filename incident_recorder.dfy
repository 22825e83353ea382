/** The classroom incident recorder: a form that saves timestamped behaviour
    incidents, keeps the list of known students growing as new names are used,
    and shows the two most recent incidents. */
module IncidentRecorder {
  import opened PyCommon
  import opened PyText
  import opened CsvStore

  /** The five choices of the read-only behaviour box. */
  const Behaviours: seq<string> := [
    "On-Task / Participating",
    "Prepared & Helping Others",
    "Excellent Effort",
    "Off-Task / Distracted",
    "Disruptive / Calling Out"
  ]

  /** Every choice of the read-only behaviour box passes the behaviour check and is
      saved exactly as listed. */
  lemma BehavioursPassValidation()
    ensures forall i :: 0 <= i < |Behaviours| ==> Behaviours[i] != [] && Strip(Behaviours[i]) == Behaviours[i]
  {
    forall i | 0 <= i < |Behaviours| ensures Strip(Behaviours[i]) == Behaviours[i] {
      var b := Behaviours[i];
      assert !IsSpace(b[0]) && !IsSpace(b[|b| - 1]);
      assert StripLeft(b) == b;
    }
  }

  /** Shown in place of the recent incidents when there are none to show. */
  const Placeholder: string := "\U{2014} no incidents yet \U{2014}"

  /** How many incidents the form shows. */
  const RecentCount: int := 2

  /** The data directory under the user's home directory. */
  function DataDir(home: string): string
  {
    home + "/Documents/TeachersData"
  }

  /** One display line: the timestamp cut to minutes, then student, behaviour and
      notes. The teacher field is not shown. */
  function FormatIncident(r: Row): string
    requires |r| >= 5
  {
    SliceTo(r[0], 16) + " | " + r[2] + " | " + r[3] + " | " + r[4]
  }

  lemma FormatIgnoresTeacher(r: Row, teacher: string)
    requires |r| >= 5
    ensures FormatIncident(r[1 := teacher]) == FormatIncident(r)
  {
  }

  /** The formatting comprehension: it raises as soon as a row has fewer than five fields. */
  function FormatAll(rows: seq<Row>): Result<seq<string>>
  {
    if rows == [] then Ok([])
    else if |rows[0]| < 5 then Err(IndexError)
    else
      match FormatAll(rows[1..])
      case Ok(rest) => Ok([FormatIncident(rows[0])] + rest)
      case Err(e) => Err(e)
  }

  /** The comprehension succeeds exactly when every row has five fields, and then
      formats each row in place. */
  lemma {:induction false} FormatAllEachRow(rows: seq<Row>)
    ensures FormatAll(rows).Ok? <==> forall i :: 0 <= i < |rows| ==> |rows[i]| >= 5
    ensures FormatAll(rows).Ok? ==> |FormatAll(rows).value| == |rows|
    ensures FormatAll(rows).Ok? ==>
              forall i :: 0 <= i < |rows| ==> |rows[i]| >= 5 && FormatAll(rows).value[i] == FormatIncident(rows[i])
  {
    if rows != [] {
      FormatAllEachRow(rows[1..]);
      assert forall i :: 1 <= i < |rows| ==> rows[1..][i - 1] == rows[i];
    }
  }

  /** `load_recent_incidents(n)`: no file gives no lines; an existing file loses its
      first row as the header (indexing it raises when the file is empty); of the
      remaining rows `data[-n:]` is kept, reversed, and formatted. */
  function RecentIncidents(f: FileContent, n: int): (r: Result<seq<string>>)
    ensures f.None? ==> r == Ok([])
    ensures f == Some([]) ==> r == Err(IndexError)
  {
    match f
    case None => Ok([])
    case Some(rows) =>
      if rows == [] then Err(IndexError)
      else FormatAll(Reversed(SliceFrom(rows[1..], -n)))
  }

  /** How many of `d` data rows `data[-n:]` keeps: the last `n` for positive `n`;
      for `n <= 0` the slice starts at index `-n`, so `n == 0` keeps them all. */
  function KeptCount(d: nat, n: int): nat
  {
    if n > 0 then Min(n, d) else Max(d + n, 0)
  }

  /** The data rows that `load_recent_incidents(n)` formats, in the order it shows them. */
  function Window(rows: seq<Row>, n: int): seq<Row>
    requires rows != []
  {
    Reversed(SliceFrom(rows[1..], -n))
  }

  /** The shown rows are the last `KeptCount` rows of the file, newest first. */
  lemma WindowNewestFirst(rows: seq<Row>, n: int)
    requires rows != []
    ensures |Window(rows, n)| == KeptCount(|rows| - 1, n)
    ensures forall i :: 0 <= i < |Window(rows, n)| ==> Window(rows, n)[i] == rows[|rows| - 1 - i]
  {
    var data := rows[1..];
    var w := SliceFrom(data, -n);
    assert Window(rows, n) == Reversed(w);
    assert |w| == KeptCount(|data|, n) && w == data[|data| - |w|..] by {
      SliceFromSuffix(data, -n);
    }
    forall i | 0 <= i < |w| ensures Reversed(w)[i] == rows[|rows| - 1 - i] {
      assert w[|w| - 1 - i] == data[|data| - 1 - i];
    }
  }

  /** The recent-incident lines of a non-empty file, for any `n`: they fail exactly when
      one of the kept rows is short, and otherwise line `i` is the `i`-th row counting
      back from the end of the file, so the newest comes first. */
  lemma RecentIncidentsNewestFirst(rows: seq<Row>, n: int)
    requires rows != []
    ensures RecentIncidents(Some(rows), n).Ok?
            <==> forall j :: |rows| - KeptCount(|rows| - 1, n) <= j < |rows| ==> |rows[j]| >= 5
    ensures RecentIncidents(Some(rows), n).Ok? ==>
              |RecentIncidents(Some(rows), n).value| == KeptCount(|rows| - 1, n)
    ensures RecentIncidents(Some(rows), n).Ok? ==>
              forall i :: 0 <= i < KeptCount(|rows| - 1, n) ==>
                |rows[|rows| - 1 - i]| >= 5 && RecentIncidents(Some(rows), n).value[i] == FormatIncident(rows[|rows| - 1 - i])
  {
    var v := Window(rows, n);
    var k := KeptCount(|rows| - 1, n);
    WindowNewestFirst(rows, n);
    FormatAllEachRow(v);
    assert RecentIncidents(Some(rows), n) == FormatAll(v);
    if forall i :: 0 <= i < |v| ==> |v[i]| >= 5 {
      forall j | |rows| - k <= j < |rows| ensures |rows[j]| >= 5 {
        assert v[|rows| - 1 - j] == rows[j];
      }
    }
  }

  /** An incidents file as this form writes it: missing, or a header row followed by
      rows of at least five fields. */
  predicate WellFormedIncidents(f: FileContent)
  {
    f.None? || (f.value != [] && forall j :: 1 <= j < |f.value| ==> |f.value[j]| >= 5)
  }

  lemma AppendKeepsWellFormed(f: FileContent, row: Row)
    requires WellFormedIncidents(f) && |row| >= 5
    ensures WellFormedIncidents(Some(Appended(f, row)))
  {
    var r := Appended(f, row);
    forall j | 1 <= j < |r| ensures |r[j]| >= 5 {
      if j < |r| - 1 {
        assert f.Some? && r[j] == f.value[j];
      }
    }
  }

  /** On a well-formed file, showing the recent incidents never raises. */
  lemma WellFormedNeverRaises(f: FileContent, n: int)
    requires WellFormedIncidents(f)
    ensures RecentIncidents(f, n).Ok?
  {
    if f.Some? {
      RecentIncidentsNewestFirst(f.value, n);
    }
  }

  /** The first incident saved to a new file is the one line shown. */
  lemma FirstIncidentShown(row: Row)
    requires |row| >= 5
    ensures RecentIncidents(Some(Appended(None, row)), RecentCount) == Ok([FormatIncident(row)])
  {
    var rows := Appended(None, row);
    assert rows[1..] == [row];
    assert SliceFrom(rows[1..], -RecentCount) == [row];
    assert Reversed([row]) == [row];
    assert [row][1..] == [] && FormatAll([]) == Ok([]);
    assert [FormatIncident(row)] + [] == [FormatIncident(row)];
  }

  /** After two more incidents on a file that is missing or has a header, the form
      shows exactly those two, the later one first. */
  lemma LastTwoNewestFirst(f: FileContent, a: Row, b: Row)
    requires f != Some([]) && |a| >= 5 && |b| >= 5
    ensures RecentIncidents(Some(Appended(Some(Appended(f, a)), b)), RecentCount)
         == Ok([FormatIncident(b), FormatIncident(a)])
  {
    var rows := Appended(Some(Appended(f, a)), b);
    assert rows[|rows| - 1] == b && rows[|rows| - 2] == a;
    assert |rows| >= 3;
    RecentIncidentsNewestFirst(rows, RecentCount);
    assert KeptCount(|rows| - 1, RecentCount) == 2;
    var r := RecentIncidents(Some(rows), RecentCount);
    assert r.Ok?;
    assert r.value[0] == FormatIncident(b) && r.value[1] == FormatIncident(a);
    assert r.value == [FormatIncident(b), FormatIncident(a)];
  }

  /** An incidents file that exists but is empty gets no header from `append_row`, so
      the first incident saved to it is read back as the header and never shown. */
  lemma EmptyFileHidesFirstIncident(row: Row, n: int)
    ensures RecentIncidents(Some(Appended(Some([]), row)), n) == Ok([])
  {
    assert Appended(Some([]), row)[1..] == [];
  }

  /** The text of the recent-incidents label, as `refresh_recent` sets it. */
  function RecentText(lines: seq<string>): (text: string)
    ensures lines == [] ==> text == Placeholder
    ensures |lines| == 1 ==> text == lines[0]
  {
    if lines != [] then Join("\n", lines) else Placeholder
  }

  /** The label shows each line on a line of its own (when no line holds a newline). */
  lemma RecentTextLines(lines: seq<string>)
    requires lines != []
    requires forall i :: 0 <= i < |lines| ==> '\n' !in lines[i]
    ensures Split(RecentText(lines), '\n') == lines
  {
    SplitJoin(lines, '\n');
  }

  /** The row that a submission saves: the timestamp and the four stripped form fields. */
  function IncidentRow(timestamp: string, teacher: string, student: string, behaviour: string, notes: string): Row
  {
    [timestamp, Strip(teacher), Strip(student), Strip(behaviour), Strip(notes)]
  }

  /** Teacher, student and behaviour must each hold something besides whitespace. */
  predicate Complete(teacher: string, student: string, behaviour: string)
  {
    Strip(teacher) != [] && Strip(student) != [] && Strip(behaviour) != []
  }

  /** The in-memory student list against the students file: the file holds the same
      names, or, once `append_row` has created it, the header's "timestamp" first. */
  predicate StudentCacheMirrorsFile(column: seq<string>, studentList: seq<string>)
  {
    column == studentList || column == ["timestamp"] + studentList
  }

  /** Adding a new student to both the list and the file keeps them in step. */
  lemma MirrorAfterNewStudent(f: FileContent, studentList: seq<string>, name: string)
    requires StudentCacheMirrorsFile(ReadColumn(f), studentList)
    ensures StudentCacheMirrorsFile(ReadColumn(Some(Appended(f, [name]))), studentList + [name])
  {
    ReadColumnAfterAppend(f, [name]);
    if f.None? {
      assert studentList == [];
    } else if ReadColumn(f) != studentList {
      assert ReadColumn(f) + [name] == ["timestamp"] + (studentList + [name]);
    }
  }

  /** The notes box read as `notes_txt.get("1.0", "end").strip()`: Tk adds a newline
      after the text, which the strip removes again. */
  function NotesText(text: string): (r: string)
    ensures r == Strip(text)
  {
    StripTrailingSpace(text, '\n');
    Strip(text + "\n")
  }

  datatype SubmitOutcome =
    | MissingInfo                // the "Missing info" warning: nothing is saved
    | Recorded(student: string)  // the "Incident recorded for ..." message
    | Raised(error: PyError)     // refreshing the recent incidents raised after the rows were saved

  /** The form's state: its three files, the names offered in the two boxes, the four
      input fields (as typed, before stripping) and the recent-incidents label. */
  class Recorder {
    const fs: FileSystem
    const teachersCsv: string
    const studentsCsv: string
    const incidentsCsv: string
    var teacherList: seq<string>
    var studentList: seq<string>
    var studentChoices: seq<string>
    var teacher: string
    var student: string
    var behaviour: string
    var notes: string
    var recent: string

    ghost predicate Valid()
      reads this`studentList, this`studentChoices, fs
    {
      && studentsCsv != incidentsCsv
      && studentChoices == studentList
      && StudentCacheMirrorsFile(ReadColumn(fs.Content(studentsCsv)), studentList)
    }

    /** The initial loads: both name lists read from their files, empty fields. The
        first `refresh_recent` is a call of RefreshRecent right after. */
    constructor (home: string, fs: FileSystem)
      ensures this.fs == fs && Valid()
      ensures teachersCsv == DataDir(home) + "/teachers.csv"
      ensures studentsCsv == DataDir(home) + "/laura_students.csv"
      ensures incidentsCsv == DataDir(home) + "/incidents.csv"
      ensures teacherList == ReadColumn(fs.Content(teachersCsv))
      ensures studentList == ReadColumn(fs.Content(studentsCsv))
      ensures teacher == "" && student == "" && behaviour == "" && notes == "" && recent == ""
    {
      var dir := DataDir(home);
      var students := dir + "/laura_students.csv";
      this.fs := fs;
      teachersCsv := dir + "/teachers.csv";
      studentsCsv := students;
      incidentsCsv := dir + "/incidents.csv";
      teacherList := ReadColumn(fs.Content(dir + "/teachers.csv"));
      studentList := ReadColumn(fs.Content(students));
      studentChoices := ReadColumn(fs.Content(students));
      teacher, student, behaviour, notes, recent := "", "", "", "", "";
    }

    /** `refresh_recent`: sets the label from the two newest incidents, unless reading
        them raises, in which case the label keeps its text. */
    method RefreshRecent() returns (error: Option<PyError>)
      modifies this`recent
      ensures match RecentIncidents(fs.Content(incidentsCsv), RecentCount)
              case Ok(lines) => error == None && recent == RecentText(lines)
              case Err(e) => error == Some(e) && recent == old(recent)
    {
      match RecentIncidents(fs.Content(incidentsCsv), RecentCount)
      case Ok(lines) =>
        recent := RecentText(lines);
        error := None;
      case Err(e) =>
        error := Some(e);
    }

    /** Step 2 of `submit`: a student not yet in the list is added to it, to the
        students box and, through `append_row`, to the students file. A listed
        student changes nothing, so no name is ever listed twice by this step. */
    method RememberStudent(name: string)
      requires Valid()
      modifies this`studentList, this`studentChoices, fs
      ensures Valid()
      ensures name in studentList
      ensures name in old(studentList) ==> studentList == old(studentList) && fs.files == old(fs.files)
      ensures name !in old(studentList) ==>
                && studentList == old(studentList) + [name]
                && fs.files == old(fs.files)[studentsCsv := Appended(old(fs.Content(studentsCsv)), [name])]
      ensures NoDuplicates(old(studentList)) ==> NoDuplicates(studentList)
    {
      if name !in studentList {
        MirrorAfterNewStudent(fs.Content(studentsCsv), studentList, name);
        studentList := studentList + [name];
        fs.AppendRow(studentsCsv, [name]);
        studentChoices := studentList;
      }
    }

    /** The saving part of `submit`. An incomplete form changes nothing. Otherwise the
        incident row is appended, the student remembered, and behaviour and notes
        cleared; teacher and student stay as typed. */
    method Record(timestamp: string) returns (saved: bool)
      requires Valid()
      modifies this`studentList, this`studentChoices, this`behaviour, this`notes, fs
      ensures Valid()
      ensures saved <==> Complete(old(teacher), old(student), old(behaviour))
      ensures teacher == old(teacher) && student == old(student)
      ensures !saved ==> unchanged(this) && fs.files == old(fs.files)
      ensures saved ==>
                var name := Strip(old(student));
                var row := IncidentRow(timestamp, old(teacher), old(student), old(behaviour), old(notes));
                var logged := old(fs.files)[incidentsCsv := Appended(old(fs.Content(incidentsCsv)), row)];
                && fs.files == (if name in old(studentList) then logged
                                else logged[studentsCsv := Appended(old(fs.Content(studentsCsv)), [name])])
                && studentList == (if name in old(studentList) then old(studentList) else old(studentList) + [name])
                && behaviour == "" && notes == ""
      ensures saved ==> Strip(old(student)) in studentList
      ensures NoDuplicates(old(studentList)) ==> NoDuplicates(studentList)
    {
      var t := Strip(teacher);
      var s := Strip(student);
      var b := Strip(behaviour);
      var n := NotesText(notes);
      if t == [] || s == [] || b == [] {
        return false;
      }
      ghost var students := fs.Content(studentsCsv);
      fs.AppendRow(incidentsCsv, [timestamp, t, s, b, n]);
      assert fs.Content(studentsCsv) == students;
      RememberStudent(s);
      behaviour := "";
      notes := "";
      saved := true;
    }

    /** `submit`: the saving part, then, for a complete form, the label refreshed. */
    method Submit(timestamp: string) returns (outcome: SubmitOutcome)
      requires Valid()
      modifies this`studentList, this`studentChoices, this`behaviour, this`notes, this`recent, fs
      ensures Valid()
      ensures outcome.MissingInfo? <==> !Complete(old(teacher), old(student), old(behaviour))
      ensures teacher == old(teacher) && student == old(student)
      ensures outcome.MissingInfo? ==> unchanged(this) && fs.files == old(fs.files)
      ensures !outcome.MissingInfo? ==>
                var name := Strip(old(student));
                var row := IncidentRow(timestamp, old(teacher), old(student), old(behaviour), old(notes));
                var logged := old(fs.files)[incidentsCsv := Appended(old(fs.Content(incidentsCsv)), row)];
                && fs.files == (if name in old(studentList) then logged
                                else logged[studentsCsv := Appended(old(fs.Content(studentsCsv)), [name])])
                && studentList == (if name in old(studentList) then old(studentList) else old(studentList) + [name])
                && behaviour == "" && notes == ""
      ensures !outcome.MissingInfo? ==>
                match RecentIncidents(fs.Content(incidentsCsv), RecentCount)
                case Ok(lines) => outcome == Recorded(Strip(old(student))) && recent == RecentText(lines)
                case Err(e) => outcome == Raised(e) && recent == old(recent)
      ensures outcome.MissingInfo? || Strip(old(student)) in studentList
      ensures NoDuplicates(old(studentList)) ==> NoDuplicates(studentList)
    {
      var name := Strip(student);
      var saved := Record(timestamp);
      if !saved {
        return MissingInfo;
      }
      var error := RefreshRecent();
      if error.Some? {
        return Raised(error.value);
      }
      outcome := Recorded(name);
    }
  }
}
