/**
 * Double_Docnum.py: the lines of Edit_sap1.txt whose DocNum occurs more
 * than once, written after the header to Double_DocNum.txt. DocNums are
 * counted raw (not trimmed), and only present, non-empty ones count.
 */
module DoubleDocnum {
  import opened Wrappers
  import opened Strings
  import opened Table
  import opened Partition
  import opened Files
  import opened Steps

  const TargetFile := "C:\\Users\\kornkanok\\Documents\\Automation_api\\minus_0\\Edit_sap1.txt"
  /**
   * `os.path.join(dirname(target_file), r"C:\...\Double_DocNum.txt")`:
   * joining an absolute Windows path gives that path.
   */
  const OutDuplicates := "C:\\Users\\kornkanok\\Documents\\Automation_api\\Check_Docnum\\Double_DocNum.txt"

  /** The value the Counter sees for a line: the raw DocNum field when present and non-empty. */
  function Counted(line: string, idx: nat, d: Dialect): Option<string> {
    match GetField(line, Some(idx), d)
    case Some(v) => if v != "" then Some(v) else None
    case None => None
  }

  /** The counted value of a line as a list of zero or one values. */
  function CountedOf(line: string, idx: nat, d: Dialect): seq<string> {
    if Counted(line, idx, d).Some? then [Counted(line, idx, d).value] else []
  }

  /** The counted values of the lines, in order. */
  function CountedValues(body: seq<string>, idx: nat, d: Dialect): (vs: seq<string>)
    ensures forall v :: v in vs ==> v != ""
    decreases |body|
  {
    if |body| == 0 then []
    else CountedValues(body[..|body| - 1], idx, d) + CountedOf(body[|body| - 1], idx, d)
  }

  /** `cnt`: how often each value is counted. */
  function Tally(body: seq<string>, idx: nat, d: Dialect): multiset<string> {
    multiset(CountedValues(body, idx, d))
  }

  /** `duplicate_docnums`: the values counted more than once. */
  function Duplicates(body: seq<string>, idx: nat, d: Dialect): (dups: set<string>)
    ensures forall v :: v in dups <==> Tally(body, idx, d)[v] > 1
  {
    set v | v in Tally(body, idx, d) && Tally(body, idx, d)[v] > 1
  }
  /** A value occurs more than once in a sequence exactly when two positions hold it. */
  lemma {:induction false} TwiceIn(vs: seq<string>, v: string)
    ensures multiset(vs)[v] > 1 <==> exists j, k :: 0 <= j < k < |vs| && vs[j] == v && vs[k] == v
  {
    if vs != [] {
      var n := |vs| - 1;
      var init := vs[..n];
      assert vs == init + [vs[n]];
      TwiceIn(init, v);
      if multiset(vs)[v] > 1 && multiset(init)[v] <= 1 {
        assert v in multiset(init);
        var j :| 0 <= j < n && init[j] == v;
        assert vs[j] == v && vs[n] == v;
      }
      if exists j, k :: 0 <= j < k < |vs| && vs[j] == v && vs[k] == v {
        var j, k :| 0 <= j < k < |vs| && vs[j] == v && vs[k] == v;
        if k < n {
          assert init[j] == v && init[k] == v;
        } else {
          assert init[j] == v;
          assert v in multiset(init);
        }
      }
    }
  }

  /** A value is a duplicate exactly when two of the counted lines carry it. */
  lemma DuplicatesTwice(body: seq<string>, idx: nat, d: Dialect, v: string)
    ensures var vs := CountedValues(body, idx, d);
      v in Duplicates(body, idx, d) <==> exists j, k :: 0 <= j < k < |vs| && vs[j] == v && vs[k] == v
  {
    var vs := CountedValues(body, idx, d);
    TwiceIn(vs, v);
    assert v in Duplicates(body, idx, d) <==> multiset(vs)[v] > 1;
  }


  /** `dv in duplicate_docnums`: an absent field is never in the set. */
  function InSet(dups: set<string>, idx: nat, d: Dialect): string -> bool {
    line => GetField(line, Some(idx), d).Some? && GetField(line, Some(idx), d).value in dups
  }

  /** `dup_lines`. */
  function DupLines(body: seq<string>, idx: nat, d: Dialect): seq<string> {
    Filter(body, InSet(Duplicates(body, idx, d), idx, d))
  }

  /** Why the script stops before writing anything. */
  datatype Failure = Missing | NoHeaderLine | NoDocNumColumn

  /** What the script writes to `out_duplicates`, or why it stops first. */
  function Report(text: string, headerRows: int, sniff: string -> Option<char>): Result<string, Failure> {
    match ReadLayout(text, headerRows, sniff)
    case None => Err(NoHeaderLine)
    case Some(lay) =>
      match DocNumColumn(lay)
      case None => Err(NoDocNumColumn)
      case Some(idx) => Ok(Concat(lay.head) + Concat(DupLines(lay.body, idx, lay.d)))
  }

  // ---------------------------------------------------------------- proofs

  /** One more line adds its counted value, if any, to the tally. */
  lemma TallyStep(body: seq<string>, i: nat, idx: nat, d: Dialect)
    requires i < |body|
    ensures Tally(body[..i + 1], idx, d) == Tally(body[..i], idx, d) + multiset(CountedOf(body[i], idx, d))
  {
    assert body[..i + 1][..i] == body[..i];
  }

  /** The counted values of lines with one more line at the end. */
  lemma CountedAppend(s: seq<string>, x: string, idx: nat, d: Dialect)
    ensures CountedValues(s + [x], idx, d) == CountedValues(s, idx, d) + CountedOf(x, idx, d)
  {
    assert (s + [x])[..|s|] == s;
  }

  /** The filter on a set without "" keeps exactly the lines whose counted value is in the set. */
  lemma InSetCounted(x: string, idx: nat, d: Dialect, dups: set<string>, v: string)
    requires "" !in dups
    ensures InSet(dups, idx, d)(x) ==> |CountedOf(x, idx, d)| == 1 && CountedOf(x, idx, d)[0] in dups
    ensures InSet(dups, idx, d)(x) && v !in dups ==> multiset(CountedOf(x, idx, d))[v] == 0
    ensures !InSet(dups, idx, d)(x) && v in dups ==> multiset(CountedOf(x, idx, d))[v] == 0
  {
  }

  /** Every line kept by a filter on a set without "" contributes exactly one counted value. */
  lemma {:induction false} FilteredCounted(body: seq<string>, idx: nat, d: Dialect, dups: set<string>)
    requires "" !in dups
    ensures |CountedValues(Filter(body, InSet(dups, idx, d)), idx, d)| == |Filter(body, InSet(dups, idx, d))|
    decreases |body|
  {
    var p := InSet(dups, idx, d);
    if |body| > 0 {
      var init := body[..|body| - 1];
      var x := body[|body| - 1];
      FilteredCounted(init, idx, d, dups);
      var k0 := Filter(init, p);
      if p(x) {
        assert Filter(body, p) == k0 + [x];
        CountedAppend(k0, x, idx, d);
        InSetCounted(x, idx, d, dups, "");
      } else {
        assert Filter(body, p) == k0;
      }
    }
  }

  /**
   * Filtering lines by membership of their field in a set keeps all counts
   * of a value in the set and none of a value outside it.
   */
  lemma {:induction false} FilteredTally(body: seq<string>, idx: nat, d: Dialect, dups: set<string>, v: string)
    requires "" !in dups
    ensures multiset(CountedValues(Filter(body, InSet(dups, idx, d)), idx, d))[v] ==
      if v in dups then multiset(CountedValues(body, idx, d))[v] else 0
    decreases |body|
  {
    var p := InSet(dups, idx, d);
    if |body| > 0 {
      var init := body[..|body| - 1];
      var x := body[|body| - 1];
      FilteredTally(init, idx, d, dups, v);
      InSetCounted(x, idx, d, dups, v);
      var k0 := Filter(init, p);
      if p(x) {
        assert Filter(body, p) == k0 + [x];
        CountedAppend(k0, x, idx, d);
      } else {
        assert Filter(body, p) == k0;
      }
    }
  }

  /** A body line is extracted exactly when its DocNum is counted more than once; order is kept by `Filter`. */
  lemma DupLinesMembers(body: seq<string>, idx: nat, d: Dialect)
    ensures forall l :: l in DupLines(body, idx, d) <==>
      l in body && Counted(l, idx, d).Some? && Tally(body, idx, d)[Counted(l, idx, d).value] > 1
  {
    var dups := Duplicates(body, idx, d);
    assert "" !in dups by {
      assert "" !in CountedValues(body, idx, d);
    }
    forall l ensures l in DupLines(body, idx, d) <==> l in body && Counted(l, idx, d).Some? && Tally(body, idx, d)[Counted(l, idx, d).value] > 1 {
      FilterMember(body, InSet(dups, idx, d), l);
    }
  }

  /**
   * Each duplicated value brings all of its lines and no other value brings
   * any, so the number of extracted lines is the sum of the counts of the
   * duplicated values.
   */
  lemma DupLinesCounts(body: seq<string>, idx: nat, d: Dialect)
    ensures var out := DupLines(body, idx, d);
      && |CountedValues(out, idx, d)| == |out|
      && (forall v :: multiset(CountedValues(out, idx, d))[v] == if Tally(body, idx, d)[v] > 1 then Tally(body, idx, d)[v] else 0)
  {
    var dups := Duplicates(body, idx, d);
    assert "" !in dups by {
      assert "" !in CountedValues(body, idx, d);
    }
    FilteredCounted(body, idx, d, dups);
    forall v ensures multiset(CountedValues(DupLines(body, idx, d), idx, d))[v] ==
        if Tally(body, idx, d)[v] > 1 then Tally(body, idx, d)[v] else 0 {
      FilteredTally(body, idx, d, dups, v);
    }
  }

  /** The output reads back as the header followed by the extracted lines. */
  lemma ReportReadsBack(text: string, headerRows: nat, sniff: string -> Option<char>)
    requires Report(text, headerRows, sniff).Ok?
    ensures var lay := ReadLayout(text, headerRows, sniff).value;
      IterRows(Report(text, headerRows, sniff).value, headerRows) == (lay.head, DupLines(lay.body, DocNumColumn(lay).value, lay.d))
  {
    var lay := ReadLayout(text, headerRows, sniff).value;
    ReadBack(text, headerRows, InSet(Duplicates(lay.body, DocNumColumn(lay).value, lay.d), DocNumColumn(lay).value, lay.d));
  }

  // ---------------------------------------------------------------- loops

  /** The counting loop: `cnt[dv] += 1` for every counted value. */
  method CountDocNums(body: seq<string>, idx: nat, d: Dialect) returns (cnt: map<string, nat>)
    ensures CountsOf(cnt, Tally(body, idx, d))
  {
    cnt := map[];
    for i := 0 to |body|
      invariant CountsOf(cnt, Tally(body[..i], idx, d))
    {
      TallyStep(body, i, idx, d);
      cnt := CountLine(cnt, body[i], idx, d, Tally(body[..i], idx, d));
    }
    assert body[..|body|] == body;
  }

  /** One step of the counting loop: the line's DocNum, when present and non-empty, is counted once more. */
  method CountLine(cnt: map<string, nat>, line: string, idx: nat, d: Dialect, ghost t: multiset<string>)
    returns (cnt': map<string, nat>)
    requires CountsOf(cnt, t)
    ensures CountsOf(cnt', t + multiset(CountedOf(line, idx, d)))
  {
    var dv := GetField(line, Some(idx), d);
    ghost var o := CountedOf(line, idx, d);
    assert o == if dv.Some? && dv.value != "" then [dv.value] else [];
    cnt' := cnt;
    if dv.Some? && dv.value != "" {
      cnt' := cnt[dv.value := CountOr(cnt, dv.value) + 1];
    }
    CountAdd(cnt, cnt', t, o);
  }

  /** `cnt` holds the multiplicities of `t`, and only of values that occur, none of them "". */
  ghost predicate CountsOf(cnt: map<string, nat>, t: multiset<string>) {
    && (forall v :: CountOr(cnt, v) == t[v])
    && (forall v :: v in cnt ==> v != "" && cnt[v] > 0)
  }

  /** Counting zero or one more non-empty value keeps the counts exact. */
  lemma CountAdd(cnt: map<string, nat>, cnt': map<string, nat>, t: multiset<string>, o: seq<string>)
    requires CountsOf(cnt, t)
    requires |o| <= 1 && (o != [] ==> o[0] != "")
    requires cnt' == if o != [] then cnt[o[0] := CountOr(cnt, o[0]) + 1] else cnt
    ensures CountsOf(cnt', t + multiset(o))
  {
    if o != [] {
      forall v ensures CountOr(cnt', v) == (t + multiset(o))[v] {
        if v == o[0] {
          assert CountOr(cnt', v) == CountOr(cnt, v) + 1;
        } else {
          assert CountOr(cnt', v) == CountOr(cnt, v);
        }
      }
    } else {
      assert t + multiset(o) == t;
    }
  }

  /** The extraction loop over the body. */
  method ExtractDuplicates(body: seq<string>, idx: nat, d: Dialect, dups: set<string>) returns (lines: seq<string>)
    ensures lines == Filter(body, InSet(dups, idx, d))
  {
    lines := [];
    for i := 0 to |body|
      invariant lines == Filter(body[..i], InSet(dups, idx, d))
    {
      FilterStep(body, i, InSet(dups, idx, d));
      var dv := GetField(body[i], Some(idx), d);
      if dv.Some? && dv.value in dups {
        lines := lines + [body[i]];
      }
    }
    assert body[..|body|] == body;
  }

  /** Both loops: count, keep the values counted more than once, extract their lines. */
  method DuplicateLines(body: seq<string>, idx: nat, d: Dialect) returns (lines: seq<string>)
    ensures lines == DupLines(body, idx, d)
  {
    var cnt := CountDocNums(body, idx, d);
    var dups := set v | v in cnt && cnt[v] > 1;
    assert dups == Duplicates(body, idx, d) by {
      forall v ensures v in dups <==> v in Duplicates(body, idx, d) {
        assert CountOr(cnt, v) == Tally(body, idx, d)[v];
      }
    }
    lines := ExtractDuplicates(body, idx, d, dups);
  }

  /**
   * The script: a missing target, an empty header or a missing DocNum
   * column stops it with nothing written; otherwise the report is written to
   * `out_duplicates` and the number of extracted lines returned.
   */
  method FindDuplicates(fs: FileStore, headerRows: int, sniff: string -> Option<char>) returns (r: Result<nat, Failure>)
    requires fs.Valid()
    modifies fs
    ensures fs.Valid()
    ensures TargetFile !in old(fs.files) ==> r == Err(Missing) && fs.files == old(fs.files)
    ensures TargetFile in old(fs.files) ==>
      var rep := Report(old(fs.files)[TargetFile], headerRows, sniff);
      && (rep.Err? ==> r == Err(rep.error) && fs.files == old(fs.files))
      && (rep.Ok? ==> r.Ok? && fs.files == old(fs.files)[OutDuplicates := rep.value])
      && (rep.Ok? ==> var lay := ReadLayout(old(fs.files)[TargetFile], headerRows, sniff).value;
                      r.value == |DupLines(lay.body, DocNumColumn(lay).value, lay.d)|)
  {
    if TargetFile !in fs.files {
      return Err(Missing);
    }
    var rep, n := BuildReport(fs.files[TargetFile], headerRows, sniff);
    if rep.Err? {
      return Err(rep.error);
    }
    fs.Write(OutDuplicates, rep.value);
    r := Ok(n);
  }

  /** The report text and its number of duplicate lines, computed from the target file's text. */
  method BuildReport(text: string, headerRows: int, sniff: string -> Option<char>) returns (rep: Result<string, Failure>, n: nat)
    ensures rep == Report(text, headerRows, sniff)
    ensures rep.Ok? ==> var lay := ReadLayout(text, headerRows, sniff).value;
                        n == |DupLines(lay.body, DocNumColumn(lay).value, lay.d)|
  {
    var lay := ReadLayout(text, headerRows, sniff);
    if lay.None? {
      return Err(NoHeaderLine), 0;
    }
    rep, n := LayoutReport(lay.value);
  }

  /** The report of a layout that has a header line. */
  method LayoutReport(lay: Layout) returns (rep: Result<string, Failure>, n: nat)
    requires |lay.head| > 0 && lay.cols == ParseRow(lay.head[|lay.head| - 1], lay.d)
    ensures DocNumColumn(lay).None? ==> rep == Err(NoDocNumColumn)
    ensures DocNumColumn(lay).Some? ==>
      var dup := DupLines(lay.body, DocNumColumn(lay).value, lay.d);
      rep == Ok(Concat(lay.head) + Concat(dup)) && n == |dup|
  {
    var idx := FindColIndex(lay.head[|lay.head| - 1], lay.d, "DocNum");
    assert idx == DocNumColumn(lay);
    if idx.None? {
      return Err(NoDocNumColumn), 0;
    }
    var dupLines := DuplicateLines(lay.body, idx.value, lay.d);
    rep, n := Ok(Concat(lay.head) + Concat(dupLines)), |dupLines|;
  }
}
