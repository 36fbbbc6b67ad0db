/**
 * What the scripts share around their loops: the output folder and file
 * names, the header/body/dialect reading every step starts with, and the
 * fact that writing the header followed by new lines reads back the same way.
 */
module Steps {
  import opened Wrappers
  import opened Strings
  import opened Table
  import opened Folder

  const OnlyNegativeName := "sap1_only_negative.txt"
  const WithoutNegativeName := "sap1_without_negative.txt"
  const MatchName := "sap2_match_negative_docnums.txt"
  const OthersName := "sap2_without_negative_docnums.txt"

  /** `folder / "minus_0" / name`, where the steps write their outputs. */
  function OutPath(folder: string, name: string): string {
    Child(Child(folder, "minus_0"), name)
  }

  /** An output path is never one of the folder's own files, so never a sap1/sap2 candidate. */
  lemma OutPathNotInFolder(folder: string, name: string)
    ensures !InFolder(OutPath(folder, name), folder)
  {
    var o := OutPath(folder, name);
    assert o[|folder| + 1..][7] == '/';
  }

  /** What every step reads before its loop: header, body, dialect, header cells. */
  datatype Layout = Layout(head: seq<string>, body: seq<string>, d: Dialect, cols: seq<string>)

  /**
   * `iter_rows`, the sample, `detect_dialect` and the cells of `head[-1]`;
   * an empty header is the IndexError of `head[-1]`.
   */
  function ReadLayout(text: string, headerRows: int, sniff: string -> Option<char>): (r: Option<Layout>)
    ensures r.None? <==> IterRows(text, headerRows).0 == []
    ensures r.Some? ==> (r.value.head, r.value.body) == IterRows(text, headerRows) && ValidDialect(r.value.d)
    ensures r.Some? ==> r.value.cols == ParseRow(r.value.head[|r.value.head| - 1], r.value.d)
  {
    var (head, body) := IterRows(text, headerRows);
    if |head| == 0 then None
    else
      var d := DetectDialect(Sample(head, body), sniff);
      Some(Layout(head, body, d, ParseRow(head[|head| - 1], d)))
  }

  /** The DocNum column of the last header line, `find_col_index(header_lines[-1], "DocNum", dialect)`, as Double_Docnum.py and ChangDocNum.py resolve it. */
  function DocNumColumn(lay: Layout): Option<nat> {
    FirstIndexOf(lay.cols, Lower("DocNum"))
  }

  /** How often `v` is counted (a `defaultdict(int)` entry), from a map that omits the values never counted. */
  function CountOr(cnt: map<string, nat>, v: string): nat {
    if v in cnt then cnt[v] else 0
  }

  /** The keys of a list, as a set. */
  function SetOf(s: seq<string>): set<string> {
    set k | k in s
  }

  /**
   * Replacing the body by as many lines, each either the body line itself
   * or a line ending in "\n", reads back as the header and those lines.
   */
  lemma MappedReadsBack(text: string, n: nat, out: seq<string>)
    requires |out| == |IterRows(text, n).1|
    requires forall i :: 0 <= i < |out| ==>
      out[i] == IterRows(text, n).1[i] || (IsLine(out[i]) && EndsInNewline(out[i]))
    ensures IterRows(Concat(IterRows(text, n).0) + Concat(out), n) == (IterRows(text, n).0, out)
  {
    var (head, body) := IterRows(text, n);
    LinesWellFormed(text);
    MappedKeepsLines(head, body, out);
    ConcatAppend(head, out);
    LinesConcat(head + out);
    assert (head + out)[..|head|] == head && (head + out)[|head|..] == out;
  }

  /** Every line of `out` is a line ending in "\n". */
  ghost predicate AllNewLines(out: seq<string>) {
    forall i :: 0 <= i < |out| ==> IsLine(out[i]) && EndsInNewline(out[i])
  }

  /** The same for a text read as `lay`, when every new line ends in "\n". */
  lemma LayoutMappedReadsBack(text: string, n: nat, sniff: string -> Option<char>, lay: Layout, out: seq<string>)
    requires ReadLayout(text, n, sniff) == Some(lay)
    requires |out| == |lay.body| && AllNewLines(out)
    ensures IterRows(Concat(lay.head) + Concat(out), n) == (lay.head, out)
  {
    MappedReadsBack(text, n, out);
  }

  /** Replacing body lines by lines that end in "\n" keeps the lines well formed. */
  lemma MappedKeepsLines(head: seq<string>, body: seq<string>, out: seq<string>)
    requires WellFormedLines(head + body) && |out| == |body|
    requires forall i :: 0 <= i < |out| ==> out[i] == body[i] || (IsLine(out[i]) && EndsInNewline(out[i]))
    ensures WellFormedLines(head + out)
  {
    forall k | 0 <= k < |head| ensures IsLine(head[k]) {
      assert (head + body)[k] == head[k];
    }
    forall k | 0 <= k < |out| ensures IsLine(out[k]) {
      assert (head + body)[|head| + k] == body[k];
    }
    if |out| > 0 {
      forall k | 0 <= k < |head| ensures EndsInNewline(head[k]) {
        assert (head + body)[k] == head[k];
      }
      forall k | 0 <= k < |out| - 1 ensures EndsInNewline(out[k]) {
        assert (head + body)[|head| + k] == body[k];
      }
    }
    assert forall k :: 0 <= k < |head + out| ==> (head + out)[k] == if k < |head| then head[k] else out[k - |head|];
  }
}
