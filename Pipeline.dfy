/**
 * pipeline_api_to_checks.py, the processing half: the folder's inputs are
 * the names that `re.fullmatch("sap1.*.txt", name)` accepts (case
 * matters, the "." before "txt" matches any character), the first in
 * sorted order; the keyword is compared lower-cased when
 * `CASE_INSENSITIVE` is set. A missing input is reported as zero counts
 * with nothing written.
 */
module Pipeline {
  import opened Wrappers
  import opened Folder
  import opened Files
  import opened Negative

  /** The candidate lists built from "sap1*.txt" and "sap1.txt", and the sap2 twins. */
  const Sap1Rule := RegexLoose("sap1")
  const Sap2Rule := RegexLoose("sap2")

  /**
   * `process_negative_and_match`: the counts of the run, or zero counts and
   * no output when a candidate list is empty; an input with no header line
   * stops the run (reported as its path), after the sap1 outputs when it
   * is sap2.
   */
  method ProcessNegativeAndMatch(fs: FileStore, folder: string, headerRows: int, keyword: string,
                                 caseInsensitive: bool, sniff: string -> Option<char>)
    returns (sap1: Option<string>, sap2: Option<string>, r: Result<Summary, string>)
    requires fs.Valid()
    modifies fs
    ensures fs.Valid()
    ensures sap1.None? <==> forall p :: p in old(fs.files) ==> !Candidate(p, folder, Sap1Rule)
    ensures sap2.None? <==> forall p :: p in old(fs.files) ==> !Candidate(p, folder, Sap2Rule)
    ensures sap1.Some? ==> IsPick(old(fs.files), folder, Sap1Rule, sap1.value)
    ensures sap2.Some? ==> IsPick(old(fs.files), folder, Sap2Rule, sap2.value)
    ensures sap1.None? || sap2.None? ==> r == Ok(Summary(0, 0)) && fs.files == old(fs.files)
    ensures sap1.Some? && sap2.Some? ==>
      (r, fs.files) == Outcome(old(fs.files), folder, sap1.value, sap2.value, headerRows, keyword, caseInsensitive, sniff)
  {
    var res;
    sap1, sap2, res := PickAndRun(fs, folder, Sap1Rule, Sap2Rule, headerRows, keyword, caseInsensitive, sniff);
    r := if res.None? then Ok(Summary(0, 0)) else res.value;
  }

  /**
   * The unescaped "." accepts "sap1_atxt" as an input, and case matters:
   * "SAP1_A.txt" is not one; "sap1.txt" is.
   */
  lemma NameRuleExamples()
    ensures Accepts(Sap1Rule, "sap1_atxt")
    ensures !Accepts(Sap1Rule, "SAP1_A.txt")
    ensures Accepts(Sap1Rule, "sap1.txt")
  {
    assert "sap1_atxt"[4..6] == "_a";
    assert "SAP1_A.txt"[..4] == "SAP1" != "sap1";
    assert "sap1.txt"[4..5] == ".";
  }
  /**
   * As written, any character but a line break may stand where ".txt" has
   * its ".": every `<prefix><mid><c>txt` is an input.
   */
  lemma LooseAnyCharBeforeTxt(prefix: string, mid: string, c: char)
    requires c != '\n' && '\n' !in mid
    ensures Accepts(RegexLoose(prefix), prefix + mid + [c] + "txt")
  {
    var name := prefix + mid + [c] + "txt";
    assert name[..|prefix|] == prefix;
    assert name[|name| - 3..] == "txt";
    assert name[|prefix|..|name| - 3] == mid + [c];
  }

  /** The rule "sap1*.txt" evidently means: the glob, whose "." is literal. */
  const IntendedSap1Rule := Glob("sap1")

  /** Under the intended rule every input has the "." of ".txt". */
  lemma IntendedNeedsDot(prefix: string, name: string)
    requires Accepts(Glob(prefix), name)
    ensures name[|name| - 4] == '.'
  {
    assert name[|name| - 4..][0] == name[|name| - 4];
  }

  /** The intended rule turns "sap1_atxt" away and still takes "sap1_a.txt" and "sap1.txt". */
  lemma IntendedRuleExamples()
    ensures !Accepts(IntendedSap1Rule, "sap1_atxt")
    ensures Accepts(IntendedSap1Rule, "sap1_a.txt")
    ensures Accepts(IntendedSap1Rule, "sap1.txt")
  {
    assert "sap1_atxt"[5] != '.';
    if Accepts(IntendedSap1Rule, "sap1_atxt") {
      IntendedNeedsDot("sap1", "sap1_atxt");
    }
    assert "sap1_a.txt"[..4] == "sap1" && "sap1_a.txt"[6..] == ".txt";
    assert "sap1.txt"[..4] == "sap1" && "sap1.txt"[4..] == ".txt";
  }
}
