/** The teacher form: a combobox offering the known teacher names, a list of every
    name saved so far and a status line, over one headerless name file. */
module TeacherRecorder {
  import opened PyCommon
  import opened PyText
  import opened PySorted
  import opened CsvStore

  /** The name file, relative to the working directory. */
  const CsvFile: string := "teachers.csv"

  /** The combobox choices: the known names, each once, in ascending order. */
  lemma PreloadChoices(f: FileContent)
    ensures StrictlySorted(SortedSet(ReadColumn(f)))
    ensures NoDuplicates(SortedSet(ReadColumn(f)))
    ensures forall x :: x in SortedSet(ReadColumn(f)) <==>
              f.Some? && exists i :: 0 <= i < |f.value| && f.value[i] != [] && f.value[i][0] == x
  {
    StrictlySortedNoDuplicates(SortedSet(ReadColumn(f)));
    ReadColumnMembers(f);
  }

  /** `save_name` has no membership check: saving a listed name lists it once more,
      so the name file then holds a duplicate. */
  lemma SavingListedNameDuplicates(f: FileContent, name: string)
    requires name in ReadColumn(f)
    ensures |ReadColumn(Some(Written(f, [name])))| == |ReadColumn(f)| + 1
    ensures multiset(ReadColumn(Some(Written(f, [name]))))[name] == multiset(ReadColumn(f))[name] + 1
    ensures !NoDuplicates(ReadColumn(Some(Written(f, [name]))))
  {
    ReadColumnAfterWrite(f, [name]);
    var before := ReadColumn(f);
    var after := ReadColumn(Some(Written(f, [name])));
    var i :| 0 <= i < |before| && before[i] == name;
    assert after[i] == name && after[|after| - 1] == name;
  }

  /** The form's state: the file store, the combobox choices, the names in the list,
      the entry text and the status line. */
  class TeacherForm {
    const fs: FileSystem
    var choices: seq<string>
    var listbox: seq<string>
    var entry: string
    var status: string

    /** The list shows the names of the file, in file order. */
    ghost predicate Valid()
      reads this`listbox, fs
    {
      listbox == ReadColumn(fs.Content(CsvFile))
    }

    /** The start-up: the combobox gets `sorted(set(load_previous()))`; the list gets
        `load_previous()` one name at a time, duplicates kept. */
    constructor (fs: FileSystem)
      ensures this.fs == fs && Valid()
      ensures choices == SortedSet(ReadColumn(fs.Content(CsvFile)))
      ensures listbox == ReadColumn(fs.Content(CsvFile))
      ensures entry == "" && status == ""
    {
      this.fs := fs;
      choices := SortedSet(ReadColumn(fs.Content(CsvFile)));
      listbox := [];
      entry, status := "", "";
      new;
      var names := ReadColumn(fs.Content(CsvFile));
      for i := 0 to |names|
        invariant listbox == names[..i]
        invariant choices == SortedSet(names) && entry == "" && status == ""
      {
        listbox := listbox + [names[i]];
      }
      assert names[..|names|] == names;
    }

    /** `save_name`: a name that is empty once stripped changes nothing (the warning).
        Otherwise it goes to the end of the list and, with no header, to the end of the
        file; the entry is cleared and the status reports the name. The combobox
        choices are not updated. */
    method SaveName() returns (saved: bool)
      requires Valid()
      modifies this`listbox, this`entry, this`status, fs
      ensures Valid()
      ensures saved <==> Strip(old(entry)) != []
      ensures !saved ==> && listbox == old(listbox) && entry == old(entry) && status == old(status)
                         && fs.files == old(fs.files)
      ensures saved ==>
                var name := Strip(old(entry));
                && listbox == old(listbox) + [name]
                && fs.files == old(fs.files)[CsvFile := Written(old(fs.Content(CsvFile)), [name])]
                && entry == ""
                && status == "Saved: " + name
    {
      var name := Strip(entry);
      if name == [] {
        return false;
      }
      listbox := listbox + [name];
      ReadColumnAfterWrite(fs.Content(CsvFile), [name]);
      fs.WriteRow(CsvFile, [name]);
      entry := "";
      status := "Saved: " + name;
      saved := true;
    }
  }
}
