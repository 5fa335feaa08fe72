/**
  `rename`: once the downloads are done, every file of the download
  directory whose key has a label in the rename map is given a readable
  name. A label that starts with a digit already carries its table number;
  any other label is prefixed with the digits of the file's key. A file
  whose key has no label, or whose label is empty, fails on its own and
  the others go on.
*/
module Renamer {
  import opened PyStr
  import opened Names
  import Subpage

  datatype RenameOutcome =
    | Renamed(source: string, destination: string)  // `os.rename(source, destination)`
    | RenameFailed(fileName: string)                // "Rename failed for <fileName>"

  /** The new name of a file without its extension, for a non-empty label. */
  function NewStem(key: string, title: string): (stem: string)
    requires |title| > 0
    ensures IsDigit(title[0]) ==> stem == title
    ensures !IsDigit(title[0]) ==> stem == Digits(key) + " " + title && stem[|stem| - |title|..] == title
  {
    if IsDigit(title[0]) then title else Digits(key) + " " + title
  }

  /** What `rename` does with one file of the directory. */
  function RenameOf(path: string, fileName: string, renames: map<string, string>): (o: RenameOutcome)
    ensures o.RenameFailed? <==> Key(fileName) !in renames || renames[Key(fileName)] == ""
    ensures o.RenameFailed? ==> o.fileName == fileName
    ensures o.Renamed? ==> o.source == path + "/" + fileName
    ensures o.Renamed? ==> o.destination == path + "/" + NewStem(Key(fileName), renames[Key(fileName)]) + Ext(fileName)
  {
    var key := Key(fileName);
    if key !in renames || renames[key] == "" then RenameFailed(fileName)
    else Renamed(path + "/" + fileName, path + "/" + NewStem(key, renames[key]) + Ext(fileName))
  }

  /**
    A renamed file stays in the same directory, keeps its extension, and its
    new key is the new stem: the label, after the key's digits and a space
    when the label does not start with a digit.
  */
  lemma RenameKeepsExtension(path: string, fileName: string, renames: map<string, string>)
    requires RenameOf(path, fileName, renames).Renamed?
    requires '.' in fileName
    ensures var d := RenameOf(path, fileName, renames).destination;
      var title := renames[Key(fileName)];
      && Ext(d) == Ext(fileName)
      && Key(d) == path + "/" + (if IsDigit(title[0]) then title else Digits(Key(fileName)) + " " + title)
  {
    var key := Key(fileName);
    var stem := NewStem(key, renames[key]);
    ExtShape(fileName);
    KeyOfSaved(path + "/" + stem, Ext(fileName));
  }

  /** `tab1_3.xls` labelled "人口统计" becomes `13 人口统计.xls`. */
  lemma RenameWithTableNumber()
    ensures RenameOf("d", "tab1_3.xls", map["tab1_3" := "人口统计"]) == Renamed("d/tab1_3.xls", "d/13 人口统计.xls")
  {
    TableFileParts();
    assert NewStem("tab1_3", "人口统计") == "13 人口统计";
    assert "d" + "/" + "13 人口统计" + ".xls" == "d/13 人口统计.xls";
  }

  /** The pieces `rename` takes from `tab1_3.xls`: key, extension and the key's digits. */
  lemma TableFileParts()
    ensures Key("tab1_3.xls") == "tab1_3" && Ext("tab1_3.xls") == ".xls" && Digits("tab1_3") == "13"
  {
    var name := "tab1_3.xls";
    RFindCharacterised(name, '.', 6);
    assert Key(name) == "tab1_3";
    assert Digits("3") == "3";
    assert Digits("_3") == "3";
    assert Digits("1_3") == "13";
  }

  /** A label that starts with a digit replaces the whole stem: `01.xls` labelled "1-1 人口" becomes `1-1 人口.xls`. */
  lemma RenameWithNumberedLabel()
    ensures RenameOf("d", "01.xls", map["01" := "1-1 人口"]) == Renamed("d/01.xls", "d/1-1 人口.xls")
  {
    var name := "01.xls";
    RFindCharacterised(name, '.', 2);
    assert Key(name) == "01";
    assert Ext(name) == ".xls";
  }

  /**
    A file that `process_subpage` saved under a page's identifier is renamed
    as soon as that identifier has a non-empty label.
  */
  lemma SavedFileRenamed(path: string, dest: string, ident: string, renames: map<string, string>)
    requires Subpage.FileWithKey(dest, path, ident)
    requires ident in renames && renames[ident] != ""
    ensures RenameOf(path, dest[|path| + 1..], renames).Renamed?
  {
  }

  /** `rename`: every file of the listing is handled on its own, in listing order. */
  method Rename(path: string, listing: seq<string>, renames: map<string, string>)
    returns (outcomes: seq<RenameOutcome>)
    ensures |outcomes| == |listing|
    ensures forall i :: 0 <= i < |listing| ==> outcomes[i] == RenameOf(path, listing[i], renames)
  {
    outcomes := [];
    for i := 0 to |listing|
      invariant |outcomes| == i
      invariant forall j :: 0 <= j < i ==> outcomes[j] == RenameOf(path, listing[j], renames)
    {
      var fileName := listing[i];
      var key := Key(fileName);
      var ext := Ext(fileName);
      if key !in renames || |renames[key]| == 0 {
        outcomes := outcomes + [RenameFailed(fileName)];
      } else {
        var title := renames[key];
        var destination;
        if IsDigit(title[0]) {
          destination := path + "/" + title + ext;
        } else {
          destination := path + "/" + Digits(key) + " " + title + ext;
        }
        outcomes := outcomes + [Renamed(path + "/" + fileName, destination)];
      }
    }
  }
}
