/**
 * Automation2.py, the processing half: after the download, the folder's
 * first `sap1*.txt` and `sap2*.txt` (names compared ignoring case, "."
 * matched literally) are split and matched, with the keyword compared
 * lower-cased when `CASE_INSENSITIVE` is set. A missing input is reported
 * as zero counts with nothing written.
 */
module Automation2 {
  import opened Wrappers
  import opened Folder
  import opened Files
  import opened Negative

  /** `pick_first(("sap1*.txt", "sap1.txt"))` and its sap2 twin. */
  const Sap1Rule := RegexIgnoreCase("sap1")
  const Sap2Rule := RegexIgnoreCase("sap2")

  /**
   * `process_negative_and_match`: the counts of the run, or zero counts and
   * no output when an input is missing; an input with no header line stops
   * the run (reported as its path), after the sap1 outputs when it is sap2.
   */
  method ProcessNegativeAndMatch(fs: FileStore, folder: string, headerRows: int, keyword: string,
                                 caseInsensitive: bool, sniff: string -> Option<char>)
    returns (sap1: Option<string>, sap2: Option<string>, r: Result<Summary, string>)
    requires fs.Valid()
    modifies fs
    ensures fs.Valid()
    ensures sap1.None? <==> forall p :: p in old(fs.files) ==> !Candidate(p, folder, Sap1Rule)
    ensures sap2.None? <==> forall p :: p in old(fs.files) ==> !Candidate(p, folder, Sap2Rule)
    ensures sap1.Some? ==> IsPick(old(fs.files), folder, Sap1Rule, sap1.value)
    ensures sap2.Some? ==> IsPick(old(fs.files), folder, Sap2Rule, sap2.value)
    ensures sap1.None? || sap2.None? ==> r == Ok(Summary(0, 0)) && fs.files == old(fs.files)
    ensures sap1.Some? && sap2.Some? ==>
      (r, fs.files) == Outcome(old(fs.files), folder, sap1.value, sap2.value, headerRows, keyword, caseInsensitive, sniff)
  {
    var res;
    sap1, sap2, res := PickAndRun(fs, folder, Sap1Rule, Sap2Rule, headerRows, keyword, caseInsensitive, sniff);
    r := if res.None? then Ok(Summary(0, 0)) else res.value;
  }

  /**
   * The name rule ignores case and takes the "." of ".txt" literally: an
   * upper-case "SAP1_A.TXT" is an input, "sap1_atxt" is not, and the second
   * pattern "sap1.txt" names an input the first already accepts.
   */
  lemma NameRuleExamples()
    ensures Accepts(Sap1Rule, "SAP1_A.TXT")
    ensures !Accepts(Sap1Rule, "sap1_atxt")
    ensures Accepts(Sap1Rule, "sap1.txt")
  {
    AnyStemAccepted("sap1", "_a");
    CaseIgnored("sap1", "SAP1_A.TXT");
    assert Strings.Lower("SAP1_A.TXT") == "sap1" + "_a" + ".txt";
    MissingDotRejected("sap1", "_a");
    assert "sap1_atxt" == "sap1" + "_a" + "txt";
    AnyStemAccepted("sap1", "");
    assert "sap1.txt" == "sap1" + "" + ".txt";
  }

  /** Case does not matter: a name is accepted exactly when its lower-case form is. */
  lemma CaseIgnored(p: string, n: string)
    ensures Accepts(RegexIgnoreCase(p), n) == Accepts(RegexIgnoreCase(p), Strings.Lower(n))
  {
    Strings.LowerFolds(n);
    if |n| >= |p| + 4 {
      var a := n[|p|..|n| - 4];
      var b := Strings.Lower(n)[|p|..|n| - 4];
      forall k | 0 <= k < |a|
        ensures a[k] == '\n' <==> b[k] == '\n'
      {
        assert b[k] == Strings.LowerChar(a[k]);
      }
    }
  }

  /** The extension needs its dot: a stem not ending in "." followed by "txt" is refused. */
  lemma MissingDotRejected(p: string, m: string)
    requires m == [] || m[|m| - 1] != '.'
    ensures !Accepts(RegexIgnoreCase(p), p + m + "txt")
  {
    var name := p + m + "txt";
    if |m| > 0 {
      assert name[|name| - 4] == m[|m| - 1];
      var l := Strings.Lower(name);
      assert l[|l| - 4..][0] == Strings.LowerChar(m[|m| - 1]);
    }
  }

  /** Every stem without a line break, the empty one included, is accepted after the prefix. */
  lemma AnyStemAccepted(p: string, m: string)
    requires '\n' !in m
    ensures Accepts(RegexIgnoreCase(p), p + m + ".txt")
  {
    var name := p + m + ".txt";
    var l := Strings.Lower(name);
    forall k | 0 <= k < |p|
      ensures l[..|p|][k] == Strings.Lower(p)[k]
    {
      assert name[k] == p[k];
    }
    assert l[..|p|] == Strings.Lower(p);
    forall k | 0 <= k < 4
      ensures l[|l| - 4..][k] == ".txt"[k]
    {
      assert name[|name| - 4 + k] == ".txt"[k];
    }
    assert l[|l| - 4..] == ".txt";
    assert name[|p|..|name| - 4] == m;
  }
}
