/**
 * The folder watchers Auto_Checkminus_0.py and Alert.py: when a directory
 * whose name is a date range appears under the watched root, its first
 * `sap1_*.txt` and `sap2_*.txt` are split on the keyword (compared as
 * written) and matched by trimmed DocNum, the outputs going to `minus_0`.
 * The two scripts run the same folder step; Alert.py adds LINE messages,
 * modelled in the Alert module.
 */
module Watch {
  import opened Wrappers
  import opened Folder
  import opened Files
  import opened Negative
  import opened Dates

  /** `SAP1_GLOB` and `SAP2_GLOB`. */
  const Sap1Rule := Glob("sap1_")
  const Sap2Rule := Glob("sap2_")

  /**
   * `process_folder`: with either input missing the folder is skipped and
   * nothing is written (None); otherwise the run of `RunSplitAndMatch`,
   * whose outcome is `Outcome` on the picked files with the keyword counted
   * as written.
   */
  method ProcessFolder(fs: FileStore, folder: string, headerRows: int, keyword: string, sniff: string -> Option<char>)
    returns (sap1: Option<string>, sap2: Option<string>, r: Option<Result<Summary, string>>)
    requires fs.Valid()
    modifies fs
    ensures fs.Valid()
    ensures sap1.None? <==> forall p :: p in old(fs.files) ==> !Candidate(p, folder, Sap1Rule)
    ensures sap2.None? <==> forall p :: p in old(fs.files) ==> !Candidate(p, folder, Sap2Rule)
    ensures sap1.Some? ==> IsPick(old(fs.files), folder, Sap1Rule, sap1.value)
    ensures sap2.Some? ==> IsPick(old(fs.files), folder, Sap2Rule, sap2.value)
    ensures r.None? <==> sap1.None? || sap2.None?
    ensures r.None? ==> fs.files == old(fs.files)
    ensures r.Some? ==>
      (r.value, fs.files) == Outcome(old(fs.files), folder, sap1.value, sap2.value, headerRows, keyword, false, sniff)
  {
    sap1, sap2, r := PickAndRun(fs, folder, Sap1Rule, Sap2Rule, headerRows, keyword, false, sniff);
  }

  /**
   * `NewFolderHandler.on_created`: only a directory whose name the folder
   * pattern accepts is processed (after the pause, which is not modelled);
   * anything else is ignored with nothing written.
   */
  method OnCreated(fs: FileStore, isDirectory: bool, parent: string, name: string,
                   headerRows: int, keyword: string, sniff: string -> Option<char>)
    returns (handled: bool, sap1: Option<string>, sap2: Option<string>, r: Option<Result<Summary, string>>)
    requires fs.Valid()
    modifies fs
    ensures fs.Valid()
    ensures handled <==> isDirectory && FolderNameMatches(name)
    ensures !handled ==> sap1.None? && sap2.None? && r.None? && fs.files == old(fs.files)
    ensures handled ==>
      var folder := Child(parent, name);
      && (sap1.None? <==> forall p :: p in old(fs.files) ==> !Candidate(p, folder, Sap1Rule))
      && (sap2.None? <==> forall p :: p in old(fs.files) ==> !Candidate(p, folder, Sap2Rule))
      && (sap1.Some? ==> IsPick(old(fs.files), folder, Sap1Rule, sap1.value))
      && (sap2.Some? ==> IsPick(old(fs.files), folder, Sap2Rule, sap2.value))
      && (r.None? <==> sap1.None? || sap2.None?)
      && (r.None? ==> fs.files == old(fs.files))
      && (r.Some? ==>
            (r.value, fs.files) == Outcome(old(fs.files), folder, sap1.value, sap2.value, headerRows, keyword, false, sniff))
  {
    handled := isDirectory && FolderNameMatches(name);
    if !handled {
      return handled, None, None, None;
    }
    sap1, sap2, r := ProcessFolder(fs, Child(parent, name), headerRows, keyword, sniff);
  }
}
