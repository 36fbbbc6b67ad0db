/**
 * check_delect0_SAP1_2.py: the one-shot version of the split and match,
 * on two fixed input paths with four fixed output paths. Unlike the folder
 * scripts it keeps DocNums as read (a DocNum with surrounding blanks is a
 * different DocNum) and a missing input is an error rather than a skip.
 */
module CheckDelect0 {
  import opened Wrappers
  import opened Partition
  import opened Steps
  import opened Files
  import opened Negative

  const SrcFile := "C:\\Users\\kornkanok\\Documents\\Automation_api\\Mizerp_api\\2025-07-28_to_2025-07-31\\sap1_2025-07-28_to_2025-07-31.txt"
  const LookupFile := "C:\\Users\\kornkanok\\Documents\\Automation_api\\Mizerp_api\\2025-07-28_to_2025-07-31\\sap2_2025-07-28_to_2025-07-31.txt"
  const OutWithKeyword := "C:\\Users\\kornkanok\\Documents\\Automation_api\\minus_0\\Edit_sap1(0)_with_keyword.txt"
  const OutWithoutKeyword := "C:\\Users\\kornkanok\\Documents\\Automation_api\\minus_0\\Edit_sap1.txt"
  const OutLookupMatches := "C:\\Users\\kornkanok\\Documents\\Automation_api\\minus_0\\sap2_pull0.txt"
  const OutLookupWithout := "C:\\Users\\kornkanok\\Documents\\Automation_api\\minus_0\\Edit_sap2.txt"

  /** Why the script stops: an input that cannot be opened, or one with no header line. */
  datatype Failure = Missing(path: string) | NoHeaderLine(path: string)

  /** The four output paths. */
  function OutFiles(): set<string> {
    {OutWithKeyword, OutWithoutKeyword, OutLookupMatches, OutLookupWithout}
  }

  /**
   * What the script leaves behind: the source is read, split and its two
   * outputs written before the lookup file is read, so a missing or
   * header-less lookup file leaves those two behind.
   */
  function Run(files: map<string, string>, headerRows: int, keyword: string, sniff: string -> Option<char>)
    : (Result<Summary, Failure>, map<string, string>)
  {
    if SrcFile !in files then (Err(Missing(SrcFile)), files)
    else match SplitText(files[SrcFile], headerRows, keyword, false, Raw, sniff)
    case None => (Err(NoHeaderLine(SrcFile)), files)
    case Some(s1) =>
      var w := files[OutWithKeyword := s1.onlyNegative][OutWithoutKeyword := s1.withoutNegative];
      if LookupFile !in files then (Err(Missing(LookupFile)), w)
      else match RouteText(files[LookupFile], headerRows, SetOf(s1.docnums), Raw, sniff)
      case None => (Err(NoHeaderLine(LookupFile)), w)
      case Some(s2) =>
        (Ok(Summary(s1.count, |s1.docnums|)), w[OutLookupMatches := s2.matched][OutLookupWithout := s2.others])
  }

  /**
   * The run writes only the four outputs and never an input; it writes all
   * four exactly when it succeeds, and nothing at all when the source file
   * is missing or has no header line.
   */
  lemma RunFrame(files: map<string, string>, headerRows: int, keyword: string, sniff: string -> Option<char>)
    ensures var (r, after) := Run(files, headerRows, keyword, sniff);
      && (forall p :: p in files && p !in OutFiles() ==> p in after && after[p] == files[p])
      && (forall p :: p in after ==> p in files || p in OutFiles())
      && (r.Ok? <==>
            && SrcFile in files && LookupFile in files
            && SplitText(files[SrcFile], headerRows, keyword, false, Raw, sniff).Some?
            && ReadLayout(files[LookupFile], headerRows, sniff).Some?)
      && (r.Ok? ==> OutFiles() <= after.Keys)
      && (r.Err? && r.error.path == SrcFile ==> after == files)
  {
    RunKeepsInputs(files, headerRows, keyword, sniff);
    RunOnlyOutputs(files, headerRows, keyword, sniff);
    RunSucceeds(files, headerRows, keyword, sniff);
    RunWritesAll(files, headerRows, keyword, sniff);
    RunSrcFailure(files, headerRows, keyword, sniff);
  }

  /** Every file other than the four outputs is left as it was. */
  lemma RunKeepsInputs(files: map<string, string>, headerRows: int, keyword: string, sniff: string -> Option<char>)
    ensures var after := Run(files, headerRows, keyword, sniff).1;
      forall p :: p in files && p !in OutFiles() ==> p in after && after[p] == files[p]
  {
  }

  /** The run creates no file other than the four outputs. */
  lemma RunOnlyOutputs(files: map<string, string>, headerRows: int, keyword: string, sniff: string -> Option<char>)
    ensures var after := Run(files, headerRows, keyword, sniff).1;
      forall p :: p in after ==> p in files || p in OutFiles()
  {
  }

  /** The run succeeds exactly when both inputs exist and have a header line. */
  lemma RunSucceeds(files: map<string, string>, headerRows: int, keyword: string, sniff: string -> Option<char>)
    ensures Run(files, headerRows, keyword, sniff).0.Ok? <==>
      && SrcFile in files && LookupFile in files
      && SplitText(files[SrcFile], headerRows, keyword, false, Raw, sniff).Some?
      && ReadLayout(files[LookupFile], headerRows, sniff).Some?
  {
    if SrcFile in files && SplitText(files[SrcFile], headerRows, keyword, false, Raw, sniff).Some? {
      var s1 := SplitText(files[SrcFile], headerRows, keyword, false, Raw, sniff).value;
      if LookupFile in files {
        var s2 := RouteText(files[LookupFile], headerRows, SetOf(s1.docnums), Raw, sniff);
        assert s2.Some? <==> ReadLayout(files[LookupFile], headerRows, sniff).Some?;
      }
    }
  }

  /** A successful run writes all four outputs. */
  lemma RunWritesAll(files: map<string, string>, headerRows: int, keyword: string, sniff: string -> Option<char>)
    ensures var (r, after) := Run(files, headerRows, keyword, sniff);
      r.Ok? ==> OutFiles() <= after.Keys
  {
  }

  /** A missing or header-less source file stops the run before anything is written. */
  lemma RunSrcFailure(files: map<string, string>, headerRows: int, keyword: string, sniff: string -> Option<char>)
    ensures var (r, after) := Run(files, headerRows, keyword, sniff);
      r.Err? && r.error.path == SrcFile ==> after == files
  {
    InputsNotOutputs();
  }

  /** The inputs lie under `Mizerp_api`, the outputs under `minus_0`: no input is overwritten. */
  lemma InputsNotOutputs()
    ensures SrcFile !in OutFiles() && LookupFile !in OutFiles() && SrcFile != LookupFile
    ensures |OutFiles()| == 4
  {
  }

  /** The script from top to bottom. */
  method CheckDelect(fs: FileStore, headerRows: int, keyword: string, sniff: string -> Option<char>)
    returns (r: Result<Summary, Failure>)
    requires fs.Valid()
    modifies fs
    ensures fs.Valid()
    ensures (r, fs.files) == Run(old(fs.files), headerRows, keyword, sniff)
  {
    if SrcFile !in fs.files {
      return Err(Missing(SrcFile));
    }
    var s1 := SplitStep(fs.files[SrcFile], headerRows, keyword, false, Raw, sniff);
    if s1.None? {
      return Err(NoHeaderLine(SrcFile));
    }
    ghost var before := fs.files;
    fs.Write(OutWithKeyword, s1.value.onlyNegative);
    fs.Write(OutWithoutKeyword, s1.value.withoutNegative);
    if LookupFile !in fs.files {
      return Err(Missing(LookupFile));
    }
    assert fs.files[LookupFile] == before[LookupFile];
    var s2 := RouteStep(fs.files[LookupFile], headerRows, SetOf(s1.value.docnums), Raw, sniff);
    if s2.None? {
      return Err(NoHeaderLine(LookupFile));
    }
    fs.Write(OutLookupMatches, s2.value.matched);
    fs.Write(OutLookupWithout, s2.value.others);
    r := Ok(Summary(s1.value.count, |s1.value.docnums|));
  }
}
