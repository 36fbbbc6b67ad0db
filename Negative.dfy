/**
 * The keyword split and DocNum match as the folder scripts run it
 * (Edit_minus0.py, Automation2.py, pipeline_api_to_checks.py, Alert.py,
 * Auto_Checkminus_0.py, check_delect0_SAP1_2.py): the DocNum column is the
 * first header cell named "docnum", and with no such column in the second
 * file both of its outputs are the header alone. The scripts differ in how
 * they pick their inputs, in whether the keyword is compared lower-cased and
 * in whether DocNums are trimmed; those are the parameters here.
 */
module Negative {
  import opened Wrappers
  import opened Strings
  import opened Table
  import opened Partition
  import opened Folder
  import opened Files
  import opened Steps

  /** `find_docnum_index(head[-1], dialect)`: the first header cell named "docnum". */
  function DocCol(lay: Layout): Option<nat> {
    FirstIndexOf(lay.cols, "docnum")
  }

  /** What a run reports: the keyword total and the number of DocNums found. */
  datatype Summary = Summary(keywordCount: nat, docnumCount: nat)

  // ---------------------------------------------------------------- sap1

  /** The two sap1 outputs, the DocNums in order of first appearance and the keyword total. */
  datatype Split = Split(onlyNegative: string, withoutNegative: string, docnums: seq<string>, count: nat)

  /** What the sap1 loop and the two writes produce for the text of the sap1 file. */
  function SplitText(text: string, n: int, keyword: string, ci: bool, mode: KeyMode,
                     sniff: string -> Option<char>): Option<Split> {
    match ReadLayout(text, n, sniff)
    case None => None
    case Some(lay) =>
      var marked := Marked(lay.body, keyword, ci);
      Some(Split(Concat(lay.head) + Concat(marked),
                 Concat(lay.head) + Concat(Unmarked(lay.body, keyword, ci)),
                 Gathered(marked, DocCol(lay), lay.d, mode),
                 TotalOccurrences(lay.body, keyword, ci)))
  }

  /**
   * Each sap1 output reads back as the header followed by its lines; the two
   * line lists split the body; the total is the occurrence count over the
   * keyword lines; a DocNum is found exactly when it is the (trimmed, in
   * `Trimmed` mode) non-empty DocNum field of a keyword line, so none when
   * the column is unresolved.
   */
  lemma SplitTextSpec(text: string, n: nat, keyword: string, ci: bool, mode: KeyMode, sniff: string -> Option<char>)
    requires SplitText(text, n, keyword, ci, mode, sniff).Some?
    ensures var lay := ReadLayout(text, n, sniff).value;
      var s := SplitText(text, n, keyword, ci, mode, sniff).value;
      var marked := Marked(lay.body, keyword, ci);
      var unmarked := Unmarked(lay.body, keyword, ci);
      && IterRows(s.onlyNegative, n) == (lay.head, marked)
      && IterRows(s.withoutNegative, n) == (lay.head, unmarked)
      && multiset(marked) + multiset(unmarked) == multiset(lay.body)
      && s.count == TotalOccurrences(marked, keyword, ci)
      && (forall key :: key in s.docnums <==>
            key != "" && exists l :: l in marked && KeyOf(l, DocCol(lay), lay.d, mode) == key)
      && (DocCol(lay).None? ==> s.docnums == [])
  {
    var lay := ReadLayout(text, n, sniff).value;
    var p := HasKeyword(keyword, ci);
    var marked := Marked(lay.body, keyword, ci);
    ReadBack(text, n, p);
    ReadBackRejected(text, n, p);
    KeywordPartition(lay.body, keyword, ci);
    TotalOverMarked(lay.body, keyword, ci);
    forall key ensures key in Gathered(marked, DocCol(lay), lay.d, mode) <==>
        key != "" && exists l :: l in marked && KeyOf(l, DocCol(lay), lay.d, mode) == key
    {
      GatheredIn(marked, DocCol(lay), lay.d, mode, key);
    }
    if DocCol(lay).None? {
      GatheredUnresolved(marked, lay.d, mode);
    }
  }

  /** The sap1 loop over the body, then the two output texts. */
  method SplitStep(text: string, n: int, keyword: string, ci: bool, mode: KeyMode, sniff: string -> Option<char>)
    returns (r: Option<Split>)
    ensures r == SplitText(text, n, keyword, ci, mode, sniff)
  {
    var lay := ReadLayout(text, n, sniff);
    if lay.None? {
      return None;
    }
    var head := lay.value.head;
    var withKw, withoutKw, docnums, count := SplitByKeyword(lay.value.body, keyword, ci, DocCol(lay.value), lay.value.d, mode);
    r := Some(Split(Concat(head) + Concat(withKw), Concat(head) + Concat(withoutKw), docnums, count));
  }

  // ---------------------------------------------------------------- sap2

  /** The two sap2 outputs. */
  datatype Routed = Routed(matched: string, others: string)

  /**
   * What the sap2 step writes: with the DocNum column unresolved both outputs
   * are the header alone; otherwise a line is matched when its DocNum is a key.
   */
  function RouteText(text: string, n: int, keys: set<string>, mode: KeyMode, sniff: string -> Option<char>): Option<Routed> {
    match ReadLayout(text, n, sniff)
    case None => None
    case Some(lay) =>
      var idx := DocCol(lay);
      if idx.None? then Some(Routed(Concat(lay.head), Concat(lay.head)))
      else Some(Routed(Concat(lay.head) + Concat(MatchedLines(lay.body, idx, lay.d, keys, mode)),
                       Concat(lay.head) + Concat(OtherLines(lay.body, idx, lay.d, keys, mode))))
  }

  /**
   * With the DocNum column unresolved both sap2 outputs read back as the
   * header with no lines; otherwise each reads back as the header followed by
   * its lines, a line is matched exactly when its DocNum (trimmed in `Trimmed`
   * mode, present and raw in `Raw` mode) is a key, and the two lists split
   * the body.
   */
  lemma RouteTextSpec(text: string, n: nat, keys: set<string>, mode: KeyMode, sniff: string -> Option<char>)
    requires RouteText(text, n, keys, mode, sniff).Some?
    ensures var lay := ReadLayout(text, n, sniff).value;
      var s := RouteText(text, n, keys, mode, sniff).value;
      var idx := DocCol(lay);
      var matched := MatchedLines(lay.body, idx, lay.d, keys, mode);
      var others := OtherLines(lay.body, idx, lay.d, keys, mode);
      && (idx.None? ==> IterRows(s.matched, n) == (lay.head, []) && s.others == s.matched)
      && (idx.Some? ==>
            && IterRows(s.matched, n) == (lay.head, matched)
            && IterRows(s.others, n) == (lay.head, others)
            && multiset(matched) + multiset(others) == multiset(lay.body)
            && forall l :: l in matched <==> l in lay.body && Matches(l, idx, lay.d, keys, mode))
  {
    var lay := ReadLayout(text, n, sniff).value;
    var idx := DocCol(lay);
    if idx.None? {
      var never := (l: string) => false;
      NoneSatisfy(lay.body, never);
      ReadBack(text, n, never);
      assert Concat(lay.head) + Concat([]) == Concat(lay.head);
    } else {
      var p := MatchesKeys(idx, lay.d, keys, mode);
      ReadBack(text, n, p);
      ReadBackRejected(text, n, p);
      RoutePartition(lay.body, idx, lay.d, keys, mode);
    }
  }

  /** The sap2 step: no loop at all when the DocNum column is unresolved. */
  method RouteStep(text: string, n: int, keys: set<string>, mode: KeyMode, sniff: string -> Option<char>)
    returns (r: Option<Routed>)
    ensures r == RouteText(text, n, keys, mode, sniff)
  {
    var lay := ReadLayout(text, n, sniff);
    if lay.None? {
      return None;
    }
    var head := lay.value.head;
    var idx := DocCol(lay.value);
    var matched, others := [], [];
    if idx.Some? {
      matched, others := RouteByKey(lay.value.body, idx, lay.value.d, keys, mode);
    }
    r := Some(Routed(Concat(head) + Concat(matched), Concat(head) + Concat(others)));
    assert idx.None? ==> Concat(head) + Concat(matched) == Concat(head);
  }

  // ---------------------------------------------------------- one folder

  /**
   * A run over a folder once both inputs are picked: the sap1 outputs are
   * written before sap2 is read, so an empty sap2 header (an IndexError,
   * reported here as the offending path) leaves them behind; an empty sap1
   * header leaves the files as they were.
   */
  function Outcome(files: map<string, string>, folder: string, sap1: string, sap2: string,
                   n: int, keyword: string, ci: bool, sniff: string -> Option<char>): (Result<Summary, string>, map<string, string>)
    requires sap1 in files && sap2 in files
  {
    match SplitText(files[sap1], n, keyword, ci, Trimmed, sniff)
    case None => (Err(sap1), files)
    case Some(s1) =>
      var w := files[OutPath(folder, OnlyNegativeName) := s1.onlyNegative]
                    [OutPath(folder, WithoutNegativeName) := s1.withoutNegative];
      match RouteText(files[sap2], n, SetOf(s1.docnums), Trimmed, sniff)
      case None => (Err(sap2), w)
      case Some(s2) =>
        (Ok(Summary(s1.count, |s1.docnums|)),
         w[OutPath(folder, MatchName) := s2.matched][OutPath(folder, OthersName) := s2.others])
  }

  /** The four paths a run writes. */
  function Outputs(folder: string): set<string> {
    {OutPath(folder, OnlyNegativeName), OutPath(folder, WithoutNegativeName),
     OutPath(folder, MatchName), OutPath(folder, OthersName)}
  }

  /** A run writes the four outputs and nothing else; the inputs are left as they were. */
  lemma OutcomeFrame(files: map<string, string>, folder: string, sap1: string, sap2: string,
                     n: int, keyword: string, ci: bool, sniff: string -> Option<char>)
    requires sap1 in files && sap2 in files
    ensures var after := Outcome(files, folder, sap1, sap2, n, keyword, ci, sniff).1;
      && (forall p :: p in files && p !in Outputs(folder) ==> p in after && after[p] == files[p])
      && (forall p :: p in after ==> p in files || p in Outputs(folder))
  {
  }

  /** The run itself: read sap1, split, write, then read sap2, route, write. */
  method RunSplitAndMatch(fs: FileStore, folder: string, sap1: string, sap2: string,
                          n: int, keyword: string, ci: bool, sniff: string -> Option<char>)
    returns (r: Result<Summary, string>)
    requires fs.Valid() && sap1 in fs.files && sap2 in fs.files && InFolder(sap2, folder)
    modifies fs
    ensures fs.Valid()
    ensures (r, fs.files) == Outcome(old(fs.files), folder, sap1, sap2, n, keyword, ci, sniff)
  {
    var s1 := SplitStep(fs.files[sap1], n, keyword, ci, Trimmed, sniff);
    if s1.None? {
      return Err(sap1);
    }
    var sap2Text := fs.files[sap2];
    OutPathNotInFolder(folder, OnlyNegativeName);
    OutPathNotInFolder(folder, WithoutNegativeName);
    fs.Write(OutPath(folder, OnlyNegativeName), s1.value.onlyNegative);
    fs.Write(OutPath(folder, WithoutNegativeName), s1.value.withoutNegative);
    assert fs.files[sap2] == sap2Text;
    var s2 := RouteStep(fs.files[sap2], n, SetOf(s1.value.docnums), Trimmed, sniff);
    if s2.None? {
      return Err(sap2);
    }
    fs.Write(OutPath(folder, MatchName), s2.value.matched);
    fs.Write(OutPath(folder, OthersName), s2.value.others);
    r := Ok(Summary(s1.value.count, |s1.value.docnums|));
  }

  /**
   * The folder step of the scripts that pick their inputs by name: the
   * first sap1 and sap2 names in sorted order that the rules accept; with
   * either missing nothing is written (None); otherwise the run above.
   */
  method PickAndRun(fs: FileStore, folder: string, sap1Rule: NameRule, sap2Rule: NameRule,
                    n: int, keyword: string, ci: bool, sniff: string -> Option<char>)
    returns (sap1: Option<string>, sap2: Option<string>, r: Option<Result<Summary, string>>)
    requires fs.Valid()
    modifies fs
    ensures fs.Valid()
    ensures sap1.None? <==> forall p :: p in old(fs.files) ==> !Candidate(p, folder, sap1Rule)
    ensures sap2.None? <==> forall p :: p in old(fs.files) ==> !Candidate(p, folder, sap2Rule)
    ensures sap1.Some? ==> IsPick(old(fs.files), folder, sap1Rule, sap1.value)
    ensures sap2.Some? ==> IsPick(old(fs.files), folder, sap2Rule, sap2.value)
    ensures r.None? <==> sap1.None? || sap2.None?
    ensures r.None? ==> fs.files == old(fs.files)
    ensures r.Some? ==>
      (r.value, fs.files) == Outcome(old(fs.files), folder, sap1.value, sap2.value, n, keyword, ci, sniff)
  {
    sap1 := PickFirst(fs.files, folder, sap1Rule);
    sap2 := PickFirst(fs.files, folder, sap2Rule);
    if sap1.None? || sap2.None? {
      return sap1, sap2, None;
    }
    var res := RunSplitAndMatch(fs, folder, sap1.value, sap2.value, n, keyword, ci, sniff);
    r := Some(res);
  }
}
