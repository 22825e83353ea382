# Classroom incident and teacher recorders, modelled in Dafny

The repository has two small tkinter forms that keep their data in CSV files.

- `Test2.py` is the classroom incident recorder.
  - A teacher picks a teacher, a student and one of five behaviours, and may add notes.
  - Submitting appends a timestamped row to `incidents.csv`.
  - A student name not seen before is added to the in-memory student list and to `laura_students.csv`.
  - The form then clears the behaviour and notes fields and shows the two most recent incidents, newest first.
- `UI.py` is the teacher recorder.
  - Its combobox offers the known names, sorted and without repeats.
  - Its list box shows every saved name in file order.
  - Saving a name appends it to the list and to `teachers.csv`, clears the entry and reports `Saved: <name>`.

The model treats every file as an abstract row store: a file is missing (`None`) or a sequence of rows, and a row is a sequence of field strings.

- `py_common.dfy` (`PyCommon`): `Option`, `Result` with Python's `IndexError`, and Python slicing and reversal.
- `py_text.dfy` (`PyText`): `str.strip()` over Python's whitespace set, plus `"\n".join` together with `split` as its inverse.
- `py_sorted.dfy` (`PySorted`): Python's string order and `sorted(set(xs))`.
- `csv_store.dfy` (`CsvStore`): `read_column`, `append_row`, and a `FileSystem` class whose methods append rows in place.
- `incident_recorder.dfy` (`IncidentRecorder`): `load_recent_incidents`, `refresh_recent` and `submit`. These run on a `Recorder` class that holds the file store, the student list, the form fields and the recent-incidents label.
- `teacher_recorder.dfy` (`TeacherRecorder`): `load_previous`, the two preloads and `save_name`. These run on a `TeacherForm` class that holds the file store, the combobox choices, the list box, the entry and the status line.

The model keeps these behaviours of the code as written:

- `append_row` writes the five-field incident header in front of the first row of *any* file it creates. That includes the students file, so a student list read back later starts with `"timestamp"`. `Recorder.Valid` allows for this.
- `load_recent_incidents` always drops the first row as the header.
  - An existing but empty incidents file raises `IndexError`. At start-up (Test2.py:110) the refresh runs at module level, outside any Tk callback, so the program ends there before the window opens.
  - An existing empty file can therefore meet `submit` only if it is emptied while the form is open. The first incident then goes into it without a header, is read back as the header and is never shown (`EmptyFileHidesFirstIncident`).
- `data[-n:]` with `n == 0` keeps every data row.
- `save_name` has no membership check, so a repeated name is listed and stored twice.
- The combobox choices are not refreshed after a save.

## Model

| member | source | states |
|---|---|---|
| CsvStore.ReadColumnMembers | Test2.py:27-32 | a missing file gives `[]`; a string is listed exactly when some non-empty row of the existing file starts with it |
| CsvStore.FirstFieldsMembers | Test2.py:31 | the comprehension `[row[0] for row in rows if row]` holds exactly the first fields of the non-empty rows |
| CsvStore.FirstFieldsConcat | Test2.py:31 | the comprehension keeps file order: on two blocks of rows it gives the first block's names, then the second's |
| CsvStore.ReadColumnPositions | UI.py:28-34 | `load_previous` is the same reader, and it keeps file order: the name of non-empty row `i` comes right after the names of the rows before it |
| CsvStore.ReadColumn | Test2.py:27-32 | `read_column` and `load_previous` (UI.py:28-34); its properties are stated by `ReadColumnMembers`, `FirstFieldsMembers`, `FirstFieldsConcat` and `ReadColumnPositions` |
| CsvStore.Appended | Test2.py:34-41 | the file after `append_row`; its shape is stated by `AppendedRows`, and what `read_column` sees afterwards by `ReadColumnAfterAppend` |
| CsvStore.Written | UI.py:46-47 | the file after a headerless `writerow`; what `load_previous` sees afterwards is stated by `ReadColumnAfterWrite` |
| CsvStore.AppendedRows | Test2.py:34-41 | on a missing file the result is exactly the incident header then `row`; on an existing file every old row stays in place, no header is added, and `row` comes last |
| CsvStore.ReadColumnAfterAppend | Test2.py:133 | after `append_row(path, [name])` the column gains `name`; on a new file `"timestamp"` from the header comes first |
| CsvStore.ReadColumnAfterWrite | UI.py:46-47 | after a headerless `writerow([name])` the column is the old column followed by `name` |
| CsvStore.FileSystem.AppendRow | Test2.py:34-41 | only the one file changes, and it becomes `Appended(old content, row)` |
| CsvStore.FileSystem.WriteRow | UI.py:46-47 | only the one file changes: `row` is added after its old rows, with no header even when it is new |
| PyCommon.SliceFrom | Test2.py:50 | Python's `data[-n:]`; its length and suffix property are stated by `SliceFromSuffix` |
| PyCommon.Reversed | Test2.py:50 | Python's `[::-1]`; that the window is the kept rows newest first is stated by `WindowNewestFirst` |
| PyCommon.SliceTo | Test2.py:52 | Python's `r[0][:16]` on the timestamp |
| PyCommon.SliceFromSuffix | Test2.py:50 | `data[-n:]` is a suffix of `data` holding the last `n` rows for `n > 0`; for `n <= 0` it drops the first `-n` rows, so `n == 0` keeps all |
| PyText.Strip | Test2.py:114-117 | Python's `str.strip()`; its properties are stated by `StripEnds`, `StripLeftRemovesSpacePrefix`, `StripRightRemovesSpaceSuffix`, `StripIdempotent` and `StripTrailingSpace` |
| PyText.Join | Test2.py:108 | Python's `"\n".join(lines)`; that it can be split back into the lines is stated by `SplitJoin` |
| PyText.StripEnds | Test2.py:114-117 | `strip()` gives `""` exactly when the text is all whitespace; otherwise the result neither starts nor ends with whitespace |
| PyText.StripLeftRemovesSpacePrefix | Test2.py:114-117 | the left strip removes exactly a leading run of whitespace |
| PyText.StripRightRemovesSpaceSuffix | Test2.py:114-117 | the right strip removes exactly a trailing run of whitespace |
| PyText.StripIdempotent | Test2.py:114-117 | stripping twice gives the same as stripping once |
| PyText.StripTrailingSpace | Test2.py:117 | a trailing whitespace character, such as the newline a Tk text box adds, never changes the stripped text |
| PyText.SplitJoin | Test2.py:108 | joining lines that hold no newline with `"\n"` and splitting on `"\n"` gives the lines back |
| PySorted.LexLess | UI.py:67 | Python's `<` on strings; it is irreflexive, transitive and total by `LexLessIrreflexive`, `LexLessTransitive` and `LexLessTotal` |
| PySorted.LexLessIrreflexive | UI.py:67 | no string is less than itself |
| PySorted.LexLessTotal | UI.py:67 | Python's string order is total |
| PySorted.LexLessTransitive | UI.py:67 | Python's string order is transitive |
| PySorted.Insert | UI.py:67 | inserting into a strictly sorted list keeps it strictly sorted and adds exactly the new string |
| PySorted.SortedSet | UI.py:67 | `sorted(set(xs))` is strictly ascending and holds exactly the strings of `xs` |
| PySorted.SortedUnique | UI.py:67 | only one strictly ascending list has a given set of members, so `SortedSet` is what `sorted(set(...))` returns |
| PySorted.StrictlySortedNoDuplicates | UI.py:67 | a strictly ascending list holds no string twice |
| IncidentRecorder.BehavioursPassValidation | Test2.py:59-65 | each of the five behaviour choices is non-empty and unchanged by `strip()`, so it passes validation and is stored as listed |
| IncidentRecorder.FormatIncident | Test2.py:52 | one display line; `FormatIgnoresTeacher` states that the teacher field never shows |
| IncidentRecorder.FormatAll | Test2.py:51-54 | the formatting comprehension; `FormatAllEachRow` states when it raises and what each line is |
| IncidentRecorder.Complete | Test2.py:114-120 | the validation test; `Recorder.Record` and `Recorder.Submit` state that saving happens exactly when it holds |
| IncidentRecorder.IncidentRow | Test2.py:114-128 | the saved row of timestamp and stripped fields; `Recorder.Record` states that exactly this row is appended |
| IncidentRecorder.FormatIgnoresTeacher | Test2.py:52 | the display line never depends on the teacher field |
| IncidentRecorder.FormatAllEachRow | Test2.py:51-54 | formatting succeeds exactly when every row has at least five fields; it then gives one line per row, in order |
| IncidentRecorder.RecentIncidents | Test2.py:43-49 | a missing file gives no lines; an existing file with no rows raises `IndexError` |
| IncidentRecorder.WindowNewestFirst | Test2.py:49-50 | the shown rows number `KeptCount`, and row `i` is the `i`-th row counted back from the end of the file |
| IncidentRecorder.RecentIncidentsNewestFirst | Test2.py:43-54 | for any `n` on a non-empty file: the call fails exactly when a kept row is short; otherwise it returns `KeptCount` lines, line `i` formatting the `i`-th row from the end |
| IncidentRecorder.AppendKeepsWellFormed | Test2.py:128 | appending five-field rows keeps the incidents file as a header plus five-field rows |
| IncidentRecorder.WellFormedNeverRaises | Test2.py:43-54 | on a missing file, or a header plus five-field rows, the recent incidents never raise |
| IncidentRecorder.FirstIncidentShown | Test2.py:36-54 | after the first incident goes into a missing file, exactly that incident is shown |
| IncidentRecorder.LastTwoNewestFirst | Test2.py:43-54 | after two incidents on a missing or headed file, the form shows exactly those two, the later one first |
| IncidentRecorder.EmptyFileHidesFirstIncident | Test2.py:36-50 | on an existing empty file the first incident becomes the header row, and nothing is shown. From start-up this cannot arise, because the start-up refresh already raises on such a file; it needs the file emptied while the form is open |
| IncidentRecorder.RecentText | Test2.py:106-108 | no lines show the placeholder `— no incidents yet —`; a single line is shown as it is |
| IncidentRecorder.RecentTextLines | Test2.py:108 | when no line contains `"\n"`, the label shows each line on a line of its own. Notes typed with a line break (the notes box is a multi-line `tk.Text`, Test2.py:94) make one incident span several label lines |
| IncidentRecorder.MirrorAfterNewStudent | Test2.py:131-133 | adding a name to both the student list and the students file keeps the list in step with the file |
| IncidentRecorder.NotesText | Test2.py:117 | the notes read from the text box, with Tk's added newline, strip to the stripped notes as typed |
| IncidentRecorder.Recorder.constructor | Test2.py:57-58 | both name lists are read from their files under the data directory, and the cache invariant holds |
| IncidentRecorder.Recorder.RefreshRecent | Test2.py:106-108 | the label becomes the text of the recent incidents; when reading them raises, the label is unchanged and the error is returned |
| IncidentRecorder.Recorder.RememberStudent | Test2.py:131-134 | a new student is added to the list, the box and the file; a listed student changes nothing; the student is listed afterwards and no name is added twice |
| IncidentRecorder.Recorder.Record | Test2.py:113-138 | saves iff teacher, student and behaviour are non-empty once stripped. If not, nothing changes. If so, exactly one stripped row is appended, the student list and file grow iff the student is new, behaviour and notes are cleared, and teacher and student are kept |
| IncidentRecorder.Recorder.Submit | Test2.py:113-144 | the saving part as in `Record`, then the label is refreshed from the file as written; the outcome is the warning, the confirmation naming the student, or the error raised by the refresh |
| TeacherRecorder.PreloadChoices | UI.py:67 | the combobox choices are strictly ascending and duplicate-free, and are exactly the names in the file |
| TeacherRecorder.SavingListedNameDuplicates | UI.py:43-47 | saving a name already in the file lists it once more: the list grows by one and then holds a duplicate |
| TeacherRecorder.TeacherForm.constructor | UI.py:67-86 | the combobox gets `sorted(set(load_previous()))`; the list box gets `load_previous()` in file order, duplicates kept |
| TeacherRecorder.TeacherForm.SaveName | UI.py:36-53 | saves iff the stripped entry is non-empty. If not, nothing changes. If so, the name goes to the end of the list box and of the file with no header, the entry is cleared, the status is `Saved: <name>`, and the list box still mirrors the file |

## Left out

- Widget construction, layout and `mainloop` are not modelled. The two forms are classes whose fields stand for the widgets' contents.
- `messagebox` dialogs are not modelled. They appear as the returned outcome: `MissingInfo`, `Recorded(student)` or `Raised(error)` for `submit`, and `false` for the missing-name warning of `save_name`.
- `datetime.now().strftime(...)` is not modelled. The timestamp is a parameter of `Record` and `Submit`.
- `Path.home()` is not modelled. The home directory is a parameter of the `Recorder` constructor.
- `mkdir`, `exists` and `open` become the `FileSystem` map. I/O failures such as permissions or a full disk are not modelled; the code does not handle them.
- The byte-level CSV format is not modelled: the `csv` module's quoting, escaping, encoding and line endings. Rows are already-parsed field sequences.
- The draft form commented out at UI.py:1-19 is not modelled.
- `Recorder.constructor` does not model the first `refresh_recent()` call at start-up (Test2.py:110). A caller makes it as a separate `RefreshRecent` call after construction. At start-up an error from it is fatal: the program ends before the window opens. This is unlike the `Raised` outcome of `Submit`, where the form stays open.
- Tkinter's handling of an exception raised inside a callback is not modelled. It is represented by `Submit` returning `Raised`, after the rows were already saved.
