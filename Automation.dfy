/**
 * The four steps of Automation.py over a folder of exports:
 *   1. `split_sap1_and_collect_docnums`: split the first sap1 file on the
 *      keyword and gather the DocNums of the keyword lines;
 *   2. `build_sap2_match`: route the first sap2 file's lines by whether
 *      their DocNum was gathered;
 *   3. `apply_msrp_to_sap2_match`: reprice the match file in place;
 *   4. `apply_msrp_to_sap2_main`: reprice the gathered documents of the
 *      sap2 file itself, replacing it through a backup, a temporary file
 *      and an atomic rename.
 * Each step is a method over the file store; beside it stands the function
 * of the input text that says what the step writes.
 */
module Automation {
  import opened Wrappers
  import opened Strings
  import opened Table
  import opened Enrich
  import opened AutomationApply
  import opened MasterData
  import opened Partition
  import opened Folder
  import opened Files
  import opened Steps

  // ---------------------------------------------------------------- paths

  /** Where step 4 writes when it does not overwrite. */
  const MainUpdatedName := "sap2_main_updated.txt"

  // --------------------------------------------------------------- errors

  /** Why the master data yields no map; `load_msrp_map` reports each as "read CSV failed". */
  datatype MasterError = NoHeader | MissingMasterColumns | EmptyMap

  datatype Failure =
    | NoInput(prefix: string)          // no `<prefix>*.txt` in the folder
    | Unreadable(path: string)         // the file to update does not exist
    | NoHeaderLine                     // `head[-1]` on an empty header
    | MissingColumns(names: seq<string>)
    | ReadCsvFailed(cause: MasterError)

  // ---------------------------------------------------------- master data

  /** The csv branch of `load_msrp_map` on a decoded table. */
  function MasterMap(t: CsvTable, codeCol: string, msrpCol: string): (r: Result<map<string, real>, MasterError>)
    ensures t.fieldnames == [] ==> r == Err(NoHeader)
    ensures t.fieldnames != [] && MasterCols(t.fieldnames, codeCol, msrpCol, true).None? ==> r == Err(MissingMasterColumns)
    ensures r.Ok? ==> r.value != map[] && "" !in r.value
    ensures r.Ok? ==> var cols := MasterCols(t.fieldnames, codeCol, msrpCol, true);
      cols.Some? && r.value == MsrpMap(t.rows, cols.value.0, cols.value.1)
  {
    if t.fieldnames == [] then Err(NoHeader)
    else match MasterCols(t.fieldnames, codeCol, msrpCol, true)
      case None => Err(MissingMasterColumns)
      case Some((cc, mc)) =>
        var out := MsrpMap(t.rows, cc, mc);
        MsrpMapNoEmptyKey(t.rows, cc, mc);
        if out == map[] then Err(EmptyMap) else Ok(out)
  }

  /** `load_msrp_map`: the header checks, then the loop that fills the map. */
  method LoadMsrpMap(t: CsvTable, codeCol: string, msrpCol: string) returns (r: Result<map<string, real>, MasterError>)
    ensures r == MasterMap(t, codeCol, msrpCol)
  {
    if t.fieldnames == [] {
      return Err(NoHeader);
    }
    var cols := MasterCols(t.fieldnames, codeCol, msrpCol, true);
    if cols.None? {
      return Err(MissingMasterColumns);
    }
    var out := BuildMsrpMap(t.rows, cols.value.0, cols.value.1);
    if out == map[] {
      return Err(EmptyMap);
    }
    return Ok(out);
  }

  // --------------------------------------------------------------- layout

  /** `find_index_ci(head[-1], dialect, ["docnum"])`. */
  function DocIdx(lay: Layout): Option<nat> {
    FindIndexCI(lay.cols, ["docnum"])
  }

  // --------------------------------------------------------- step 1: sap1

  datatype Sap1Result = Sap1Result(onlyNegative: string, withoutNegative: string, docnums: set<string>, count: nat)

  /** What step 1 writes and returns for the text of the sap1 file. */
  function SplitSap1Text(text: string, headerRows: int, keyword: string, ci: bool, sniff: string -> Option<char>): Result<Sap1Result, Failure> {
    match ReadLayout(text, headerRows, sniff)
    case None => Err(NoHeaderLine)
    case Some(lay) =>
      var marked := Marked(lay.body, keyword, ci);
      Ok(Sap1Result(Concat(lay.head) + Concat(marked),
                    Concat(lay.head) + Concat(Unmarked(lay.body, keyword, ci)),
                    SetOf(Gathered(marked, DocIdx(lay), lay.d, Trimmed)),
                    TotalOccurrences(lay.body, keyword, ci)))
  }

  /**
   * Step 1: each output reads back as the header followed by its lines, the
   * two line lists split the body, the DocNums are exactly the trimmed
   * non-empty DocNum fields of keyword lines (none when the column is
   * unresolved), and the count is the keyword lines' occurrence total.
   */
  lemma SplitSap1Spec(text: string, n: nat, keyword: string, ci: bool, sniff: string -> Option<char>)
    requires SplitSap1Text(text, n, keyword, ci, sniff).Ok?
    ensures var lay := ReadLayout(text, n, sniff).value;
      var s := SplitSap1Text(text, n, keyword, ci, sniff).value;
      && IterRows(s.onlyNegative, n) == (lay.head, Marked(lay.body, keyword, ci))
      && IterRows(s.withoutNegative, n) == (lay.head, Unmarked(lay.body, keyword, ci))
      && multiset(Marked(lay.body, keyword, ci)) + multiset(Unmarked(lay.body, keyword, ci)) == multiset(lay.body)
      && (forall key :: key in s.docnums <==>
            key != "" && exists l :: l in lay.body && Occurrences(l, keyword, ci) > 0 && KeyOf(l, DocIdx(lay), lay.d, Trimmed) == key)
      && (DocIdx(lay).None? ==> s.docnums == {})
      && s.count == TotalOccurrences(Marked(lay.body, keyword, ci), keyword, ci)
  {
    var lay := ReadLayout(text, n, sniff).value;
    var p := HasKeyword(keyword, ci);
    ReadBack(text, n, p);
    ReadBackRejected(text, n, p);
    KeywordPartition(lay.body, keyword, ci);
    TotalOverMarked(lay.body, keyword, ci);
    KeywordDocNums(lay.body, keyword, ci, DocIdx(lay), lay.d);
    if DocIdx(lay).None? {
      GatheredUnresolved(Marked(lay.body, keyword, ci), lay.d, Trimmed);
    }
  }

  /** The DocNums gathered from the keyword lines are the trimmed non-empty DocNum fields of body lines with an occurrence. */
  lemma KeywordDocNums(body: seq<string>, keyword: string, ci: bool, idx: Option<nat>, d: Dialect)
    ensures forall key :: key in SetOf(Gathered(Marked(body, keyword, ci), idx, d, Trimmed)) <==>
      key != "" && exists l :: l in body && Occurrences(l, keyword, ci) > 0 && KeyOf(l, idx, d, Trimmed) == key
  {
    var p := HasKeyword(keyword, ci);
    var marked := Marked(body, keyword, ci);
    forall key ensures key in SetOf(Gathered(marked, idx, d, Trimmed)) <==>
        key != "" && exists l :: l in body && Occurrences(l, keyword, ci) > 0 && KeyOf(l, idx, d, Trimmed) == key
    {
      GatheredIn(marked, idx, d, Trimmed, key);
      if key != "" && exists l :: l in body && Occurrences(l, keyword, ci) > 0 && KeyOf(l, idx, d, Trimmed) == key {
        var l :| l in body && Occurrences(l, keyword, ci) > 0 && KeyOf(l, idx, d, Trimmed) == key;
        FilterMember(body, p, l);
      }
      if key in Gathered(marked, idx, d, Trimmed) {
        var l :| l in marked && KeyOf(l, idx, d, Trimmed) == key;
        FilterMember(body, p, l);
      }
    }
  }

  /** `split_sap1_and_collect_docnums`. */
  method SplitSap1(fs: FileStore, folder: string, headerRows: int, keyword: string, ci: bool, sniff: string -> Option<char>)
    returns (src: Option<string>, r: Result<Sap1Result, Failure>)
    requires fs.Valid()
    modifies fs
    ensures fs.Valid()
    ensures src.None? <==> forall p :: p in old(fs.files) ==> !Candidate(p, folder, Glob("sap1"))
    ensures src.Some? ==> IsPick(old(fs.files), folder, Glob("sap1"), src.value)
    ensures src.None? ==> r == Err(NoInput("sap1"))
    ensures src.Some? ==> r == SplitSap1Text(old(fs.files)[src.value], headerRows, keyword, ci, sniff)
    ensures r.Err? ==> fs.files == old(fs.files)
    ensures r.Ok? ==> fs.files == old(fs.files)[OutPath(folder, OnlyNegativeName) := r.value.onlyNegative]
                                              [OutPath(folder, WithoutNegativeName) := r.value.withoutNegative]
  {
    src := PickFirst(fs.files, folder, Glob("sap1"));
    if src.None? {
      r := Err(NoInput("sap1"));
      return;
    }
    var lay := ReadLayout(fs.files[src.value], headerRows, sniff);
    if lay.None? {
      r := Err(NoHeaderLine);
      return;
    }
    var head := lay.value.head;
    var withKw, withoutKw, docnums, count := SplitByKeyword(lay.value.body, keyword, ci, DocIdx(lay.value), lay.value.d, Trimmed);
    r := Ok(Sap1Result(Concat(head) + Concat(withKw), Concat(head) + Concat(withoutKw), SetOf(docnums), count));
    fs.Write(OutPath(folder, OnlyNegativeName), r.value.onlyNegative);
    fs.Write(OutPath(folder, WithoutNegativeName), r.value.withoutNegative);
  }

  // -------------------------------------------------------- step 2: sap2

  datatype Sap2Result = Sap2Result(matched: string, others: string)

  /** What step 2 writes for the text of the sap2 file. */
  function Sap2MatchText(text: string, headerRows: int, keys: set<string>, sniff: string -> Option<char>): Result<Sap2Result, Failure> {
    match ReadLayout(text, headerRows, sniff)
    case None => Err(NoHeaderLine)
    case Some(lay) =>
      Ok(Sap2Result(Concat(lay.head) + Concat(MatchedLines(lay.body, DocIdx(lay), lay.d, keys, Trimmed)),
                    Concat(lay.head) + Concat(OtherLines(lay.body, DocIdx(lay), lay.d, keys, Trimmed))))
  }

  /**
   * Step 2: each output reads back as the header followed by its lines; a
   * line is matched exactly when its trimmed DocNum field is a key; the two
   * lists split the body; with the DocNum column unresolved (and no empty
   * key) nothing is matched and every line goes to the others.
   */
  lemma Sap2MatchSpec(text: string, n: nat, keys: set<string>, sniff: string -> Option<char>)
    requires Sap2MatchText(text, n, keys, sniff).Ok?
    ensures var lay := ReadLayout(text, n, sniff).value;
      var s := Sap2MatchText(text, n, keys, sniff).value;
      var matched := MatchedLines(lay.body, DocIdx(lay), lay.d, keys, Trimmed);
      var others := OtherLines(lay.body, DocIdx(lay), lay.d, keys, Trimmed);
      && IterRows(s.matched, n) == (lay.head, matched)
      && IterRows(s.others, n) == (lay.head, others)
      && multiset(matched) + multiset(others) == multiset(lay.body)
      && (forall l :: l in matched <==> l in lay.body && Strip(GetField(l, DocIdx(lay), lay.d).GetOr("")) in keys)
      && (DocIdx(lay).None? && "" !in keys ==> matched == [] && others == lay.body)
  {
    var lay := ReadLayout(text, n, sniff).value;
    var idx := DocIdx(lay);
    var p := MatchesKeys(idx, lay.d, keys, Trimmed);
    ReadBack(text, n, p);
    ReadBackRejected(text, n, p);
    RoutePartition(lay.body, idx, lay.d, keys, Trimmed);
    if idx.None? && "" !in keys {
      forall k | 0 <= k < |lay.body| ensures !p(lay.body[k]) {
        UnreadableNeverMatches(lay.body[k], idx, lay.d, keys, Trimmed);
      }
      NoneSatisfy(lay.body, p);
    }
  }

  /** `build_sap2_match`: returns the path of the match file. */
  method BuildSap2Match(fs: FileStore, folder: string, headerRows: int, keys: set<string>, sniff: string -> Option<char>)
    returns (src: Option<string>, r: Result<string, Failure>)
    requires fs.Valid()
    modifies fs
    ensures fs.Valid()
    ensures src.None? <==> forall p :: p in old(fs.files) ==> !Candidate(p, folder, Glob("sap2"))
    ensures src.Some? ==> IsPick(old(fs.files), folder, Glob("sap2"), src.value)
    ensures src.None? ==> r == Err(NoInput("sap2"))
    ensures r.Err? ==> fs.files == old(fs.files)
    ensures src.Some? ==> var s := Sap2MatchText(old(fs.files)[src.value], headerRows, keys, sniff);
      && (s.Err? ==> r == Err(s.error))
      && (s.Ok? ==> r == Ok(OutPath(folder, MatchName))
                    && fs.files == old(fs.files)[OutPath(folder, MatchName) := s.value.matched]
                                                [OutPath(folder, OthersName) := s.value.others])
  {
    src := PickFirst(fs.files, folder, Glob("sap2"));
    if src.None? {
      r := Err(NoInput("sap2"));
      return;
    }
    var lay := ReadLayout(fs.files[src.value], headerRows, sniff);
    if lay.None? {
      r := Err(NoHeaderLine);
      return;
    }
    var head := lay.value.head;
    var matched, others := RouteByKey(lay.value.body, DocIdx(lay.value), lay.value.d, keys, Trimmed);
    fs.Write(OutPath(folder, MatchName), Concat(head) + Concat(matched));
    fs.Write(OutPath(folder, OthersName), Concat(head) + Concat(others));
    r := Ok(OutPath(folder, MatchName));
  }

  // ------------------------------------------------------ steps 3 and 4

  /** Which file a repricing step works on: the match file, or the sap2 file for the given DocNums. */
  datatype Target = MatchFile | MainFile(targets: set<string>)

  function NeedFor(l: Lookup, t: Target): seq<(string, Option<nat>)> {
    if t.MatchFile? then MatchNeed(l) else MainNeed(l)
  }

  /** How the rows are rewritten once the columns resolve. */
  datatype Plan = Plan(g: Gate, c: PriceCols, desc: Option<nat>)

  /**
   * The missing-column check on the looked-up indices: an error naming
   * every unresolved required column, else the plan (every row of the
   * match file; in the sap2 file only rows whose trimmed DocNum is a target).
   */
  function PlanFor(l: Lookup, t: Target): (r: Result<Plan, Failure>)
    ensures r.Err? <==> Missing(NeedFor(l, t)) != []
    ensures r.Err? ==> r.error == MissingColumns(Missing(NeedFor(l, t)))
    ensures r.Ok? ==> r.value.desc == l.desc && Some(r.value.c.item) == l.item
    ensures r.Ok? && t.MatchFile? ==> r.value.g == Every
    ensures r.Ok? && t.MainFile? ==>
      r.value.g.DocIn? && Some(r.value.g.doc) == l.doc && r.value.g.targets == t.targets
  {
    var need := NeedFor(l, t);
    var miss := Missing(need);
    if miss != [] then Err(MissingColumns(miss))
    else
      var o := if t.MatchFile? then 0 else 1;
      assert need[o].1 == l.item && need[o + 1].1 == l.gp && need[o + 2].1 == l.price
          && need[o + 3].1 == l.total && need[o + 4].1 == l.qty;
      assert t.MainFile? ==> need[0].1 == l.doc;
      Ok(Plan(if t.MatchFile? then Every else DocIn(l.doc.value, t.targets), PriceColsOf(l), l.desc))
  }

  /** The line each body line becomes under a plan. */
  function LineStep(lay: Layout, p: Plan, m: map<string, real>): string -> (string, bool) {
    EnrichLine(lay.d, p.g, p.c, p.desc, m)
  }

  /** The text written under a plan, and the number of rows priced. */
  function Rewritten(lay: Layout, p: Plan, m: map<string, real>): (string, nat) {
    (Concat(lay.head) + Concat(Mapped(lay.body, LineStep(lay, p, m))), Flagged(lay.body, LineStep(lay, p, m)))
  }

  /** What a repricing step writes for a text, and how many rows it priced. */
  function EnrichText(text: string, headerRows: int, m: map<string, real>, t: Target,
                      resolve: seq<string> -> Lookup, sniff: string -> Option<char>): Result<(string, nat), Failure> {
    match ReadLayout(text, headerRows, sniff)
    case None => Err(NoHeaderLine)
    case Some(lay) => EnrichLayout(lay, m, t, resolve)
  }

  /** What a repricing step writes for a file read as `lay`. */
  function EnrichLayout(lay: Layout, m: map<string, real>, t: Target, resolve: seq<string> -> Lookup): Result<(string, nat), Failure> {
    match PlanFor(resolve(lay.cols), t)
    case Err(e) => Err(e)
    case Ok(p) => Ok(Rewritten(lay, p, m))
  }

  /** A lookup that never resolves the description to the ItemCode column. */
  ghost predicate KeepsApart(resolve: seq<string> -> Lookup) {
    forall cols :: resolve(cols).desc.None? || resolve(cols).item.None? || resolve(cols).desc != resolve(cols).item
  }

  /** Neither lookup resolves the description to the ItemCode column: their names differ. */
  lemma LookupsKeepApart()
    ensures KeepsApart(Resolve) && KeepsApart(ResolveIntended)
  {
    forall cols ensures ResolveIntended(cols).desc.None? || ResolveIntended(cols).item.None?
                     || ResolveIntended(cols).desc != ResolveIntended(cols).item {
      ResolveIntendedApart(cols);
    }
  }

  /**
   * With the lookup as written, a header whose only ItemCode column is the
   * first one makes either repricing step stop with the missing-column
   * error, ItemCode among the names; with the intended lookup the same
   * header never has ItemCode reported missing.
   */
  lemma ItemCodeAtZeroStopsStep(text: string, n: nat, m: map<string, real>, t: Target,
                                sniff: string -> Option<char>, lay: Layout)
    requires ReadLayout(text, n, sniff) == Some(lay)
    requires |lay.cols| > 0 && Norm(lay.cols[0]) == "itemcode"
    requires forall j :: 0 < j < |lay.cols| ==> Norm(lay.cols[j]) != "itemcode"
    requires forall j :: 0 <= j < |lay.cols| ==> Norm(lay.cols[j]) != "code"
    ensures var e := EnrichText(text, n, m, t, Resolve, sniff);
      e.Err? && e.error.MissingColumns? && "ItemCode" in e.error.names
    ensures var e := EnrichText(text, n, m, t, ResolveIntended, sniff);
      e.Err? ==> e.error.MissingColumns? && "ItemCode" !in e.error.names
  {
    ItemCodeAtZeroIsMissing(lay.cols);
    StepStopsWithoutItem(text, n, m, t, Resolve, sniff, lay);
    ResolveIntendedFindsItem(lay.cols, 0);
    StepFindsItem(text, n, m, t, ResolveIntended, sniff, lay);
  }

  /** A lookup that leaves ItemCode unresolved makes the step stop, naming ItemCode. */
  lemma StepStopsWithoutItem(text: string, n: nat, m: map<string, real>, t: Target,
                             resolve: seq<string> -> Lookup, sniff: string -> Option<char>, lay: Layout)
    requires ReadLayout(text, n, sniff) == Some(lay) && resolve(lay.cols).item.None?
    ensures var e := EnrichText(text, n, m, t, resolve, sniff);
      e.Err? && e.error.MissingColumns? && "ItemCode" in e.error.names
  {
    var l := resolve(lay.cols);
    var need := NeedFor(l, t);
    var o := if t.MatchFile? then 0 else 1;
    assert need[o] == ("ItemCode", l.item);
  }

  /** A lookup that resolves ItemCode never has it reported missing. */
  lemma StepFindsItem(text: string, n: nat, m: map<string, real>, t: Target,
                      resolve: seq<string> -> Lookup, sniff: string -> Option<char>, lay: Layout)
    requires ReadLayout(text, n, sniff) == Some(lay) && resolve(lay.cols).item.Some?
    ensures var e := EnrichText(text, n, m, t, resolve, sniff);
      e.Err? ==> e.error.MissingColumns? && "ItemCode" !in e.error.names
  {
    ItemNotMissing(resolve(lay.cols), t);
  }

  /** ItemCode is reported missing only when it is unresolved. */
  lemma ItemNotMissing(l: Lookup, t: Target)
    requires l.item.Some?
    ensures "ItemCode" !in Missing(NeedFor(l, t))
  {
    var need := NeedFor(l, t);
    var o := if t.MatchFile? then 0 else 1;
    assert need[o] == ("ItemCode", l.item);
    assert forall k :: 0 <= k < |need| && k != o ==> need[k].0 != "ItemCode";
    if "ItemCode" in Missing(need) {
      MissingOnly(need, "ItemCode");
    }
  }

  /**
   * Steps 3 and 4: the written text reads back as the same header followed
   * by exactly one line per body line, each the rewrite of that line, and
   * the count is the number of body lines that get priced.
   */
  lemma EnrichTextSpec(text: string, n: nat, m: map<string, real>, t: Target,
                       resolve: seq<string> -> Lookup, sniff: string -> Option<char>)
    requires KeepsApart(resolve)
    requires EnrichText(text, n, m, t, resolve, sniff).Ok?
    ensures var lay := ReadLayout(text, n, sniff).value;
      var p := PlanFor(resolve(lay.cols), t).value;
      var (out, count) := EnrichText(text, n, m, t, resolve, sniff).value;
      && IterRows(out, n) == (lay.head, Mapped(lay.body, LineStep(lay, p, m)))
      && count == |Filter(lay.body, PricedBy(lay.d, p.g, p.c, m))|
  {
    var lay := ReadLayout(text, n, sniff).value;
    var p := PlanFor(resolve(lay.cols), t).value;
    assert EnrichText(text, n, m, t, resolve, sniff).value == Rewritten(lay, p, m);
    assert resolve(lay.cols).desc.None? || resolve(lay.cols).item.None? || resolve(lay.cols).desc != resolve(lay.cols).item;
    RewrittenSpec(text, n, m, sniff, lay, p);
  }

  /** The same, for the layout `lay` the text is read as and the plan `p` made for it. */
  lemma RewrittenSpec(text: string, n: nat, m: map<string, real>, sniff: string -> Option<char>, lay: Layout, p: Plan)
    requires ReadLayout(text, n, sniff) == Some(lay)
    requires p.desc.None? || p.desc.value != p.c.item
    ensures var (out, count) := Rewritten(lay, p, m);
      && IterRows(out, n) == (lay.head, Mapped(lay.body, LineStep(lay, p, m)))
      && count == |Filter(lay.body, PricedBy(lay.d, p.g, p.c, m))|
  {
    RewrittenReadsBack(text, n, m, sniff, lay, p);
    FlaggedCount(lay.body, lay.d, p.g, p.c, p.desc, m);
  }

  /** The rewritten text reads back as the header followed by the rewritten lines. */
  lemma RewrittenReadsBack(text: string, n: nat, m: map<string, real>, sniff: string -> Option<char>, lay: Layout, p: Plan)
    requires ReadLayout(text, n, sniff) == Some(lay)
    ensures var out := Mapped(lay.body, LineStep(lay, p, m));
      IterRows(Concat(lay.head) + Concat(out), n) == (lay.head, out)
  {
    EnrichedAreLines(lay, p, m);
    LayoutMappedReadsBack(text, n, sniff, lay, Mapped(lay.body, LineStep(lay, p, m)));
  }

  /** Every rewritten line is a line ending in "\n". */
  lemma EnrichedAreLines(lay: Layout, p: Plan, m: map<string, real>)
    requires ValidDialect(lay.d)
    ensures AllNewLines(Mapped(lay.body, LineStep(lay, p, m)))
  {
    var out := Mapped(lay.body, LineStep(lay, p, m));
    forall i | 0 <= i < |out| ensures IsLine(out[i]) && EndsInNewline(out[i]) {
      EnrichLineIsLine(lay.body[i], lay.d, p.g, p.c, p.desc, m);
    }
  }

  /** `apply_msrp_to_sap2_match`: load the map, reprice the match file, write it back. */
  method ApplyMatch(fs: FileStore, path: string, master: CsvTable, codeCol: string, msrpCol: string,
                    headerRows: int, resolve: seq<string> -> Lookup, sniff: string -> Option<char>)
    returns (r: Result<nat, Failure>)
    requires fs.Valid()
    modifies fs
    ensures fs.Valid()
    ensures r.Err? ==> fs.files == old(fs.files)
    ensures var mm := MasterMap(master, codeCol, msrpCol);
      && (mm.Err? ==> r == Err(ReadCsvFailed(mm.error)))
      && (mm.Ok? && path !in old(fs.files) ==> r == Err(Unreadable(path)))
      && (mm.Ok? && path in old(fs.files) ==>
            var e := EnrichText(old(fs.files)[path], headerRows, mm.value, MatchFile, resolve, sniff);
            && (e.Err? ==> r == Err(e.error))
            && (e.Ok? ==> r == Ok(e.value.1) && fs.files == old(fs.files)[path := e.value.0]))
  {
    var mm := LoadMsrpMap(master, codeCol, msrpCol);
    if mm.Err? {
      return Err(ReadCsvFailed(mm.error));
    }
    if path !in fs.files {
      return Err(Unreadable(path));
    }
    var out, count := Reprice(fs.files[path], headerRows, mm.value, MatchFile, resolve, sniff);
    if out.Err? {
      return Err(out.error);
    }
    fs.Write(path, out.value);
    return Ok(count);
  }

  /** The part both repricing steps share: layout, missing check, then the loop over the body. */
  method Reprice(text: string, headerRows: int, m: map<string, real>, t: Target,
                 resolve: seq<string> -> Lookup, sniff: string -> Option<char>)
    returns (out: Result<string, Failure>, count: nat)
    ensures var e := EnrichText(text, headerRows, m, t, resolve, sniff);
      && (e.Err? ==> out == Err(e.error))
      && (e.Ok? ==> out == Ok(e.value.0) && count == e.value.1)
  {
    var lay := ReadLayout(text, headerRows, sniff);
    if lay.None? {
      return Err(NoHeaderLine), 0;
    }
    out, count := RepriceLayout(lay.value, m, t, resolve);
  }

  /** The plan and the loop over the body of a file read as `lay`. */
  method RepriceLayout(lay: Layout, m: map<string, real>, t: Target, resolve: seq<string> -> Lookup)
    returns (out: Result<string, Failure>, count: nat)
    ensures var e := EnrichLayout(lay, m, t, resolve);
      && (e.Err? ==> out == Err(e.error))
      && (e.Ok? ==> out == Ok(e.value.0) && count == e.value.1)
  {
    var plan := PlanFor(resolve(lay.cols), t);
    if plan.Err? {
      return Err(plan.error), 0;
    }
    var lines;
    lines, count := RewriteBody(lay.body, LineStep(lay, plan.value, m));
    out := Ok(Concat(lay.head) + Concat(lines));
  }

  /** The file map after the in-place update of `path`. */
  function Overwritten(files: map<string, string>, path: string, text: string, backupRefused: bool): map<string, string>
    requires path in files
  {
    var backed := if backupRefused then files else files[path + ".bak" := files[path]];
    (backed - {path + ".tmp"})[path := text]
  }

  /**
   * After the update the path holds the new text, the temporary file is
   * gone, the backup holds the old text unless the copy failed, and no
   * other file changed.
   */
  lemma OverwrittenSpec(files: map<string, string>, path: string, text: string, backupRefused: bool)
    requires path in files
    ensures var f := Overwritten(files, path, text, backupRefused);
      && path in f && f[path] == text
      && path + ".tmp" !in f
      && (!backupRefused ==> path + ".bak" in f && f[path + ".bak"] == files[path])
      && (backupRefused ==> (path + ".bak" in f <==> path + ".bak" in files))
      && forall q :: q != path && q != path + ".bak" && q != path + ".tmp" ==>
           (q in f <==> q in files) && (q in f ==> f[q] == files[q])
  {
    assert (path + ".bak")[|path| + 3] == 'k' && (path + ".tmp")[|path| + 3] == 'p';
  }

  /**
   * The overwrite path: copy to "<path>.bak" (a failure only logged), write
   * the whole new text to "<path>.tmp", then rename it onto the path. At
   * every state along the way the path holds the old text or the new one.
   */
  method OverwriteInPlace(fs: FileStore, path: string, text: string, backupRefused: bool)
    requires fs.Valid() && path in fs.files
    modifies fs
    ensures fs.Valid()
    ensures fs.files == Overwritten(old(fs.files), path, text, backupRefused)
    ensures |fs.trace| >= |old(fs.trace)| && fs.trace[..|old(fs.trace)|] == old(fs.trace)
    ensures forall k :: |old(fs.trace)| - 1 <= k < |fs.trace| ==>
              path in fs.trace[k] && (fs.trace[k][path] == old(fs.files)[path] || fs.trace[k][path] == text)
  {
    var bak, tmp := path + ".bak", path + ".tmp";
    assert bak[|path| + 3] == 'k' && tmp[|path| + 3] == 'p';
    ghost var t0 := fs.trace;
    var copied := fs.Copy(path, bak, backupRefused);
    ghost var t1 := fs.trace;
    assert path in fs.files && fs.files[path] == old(fs.files)[path];
    fs.Write(tmp, text);
    ghost var t2 := fs.trace;
    var moved := fs.Replace(tmp, path);
    assert forall k :: |t0| - 1 <= k < |t1| ==> t1[k] == t2[k] == fs.trace[k];
  }

  /**
   * `apply_msrp_to_sap2_main`: pick the sap2 file, load the map, reprice the
   * target documents, then replace the file in place, or with `overwrite`
   * false write minus_0/sap2_main_updated.txt. Returns the count and the
   * path written.
   */
  method ApplyMain(fs: FileStore, folder: string, master: CsvTable, codeCol: string, msrpCol: string,
                   headerRows: int, docnums: set<string>, overwrite: bool, backupRefused: bool,
                   resolve: seq<string> -> Lookup, sniff: string -> Option<char>)
    returns (src: Option<string>, r: Result<(nat, string), Failure>)
    requires fs.Valid()
    modifies fs
    ensures fs.Valid()
    ensures src.None? <==> forall p :: p in old(fs.files) ==> !Candidate(p, folder, Glob("sap2"))
    ensures src.Some? ==> IsPick(old(fs.files), folder, Glob("sap2"), src.value)
    ensures src.None? ==> r == Err(NoInput("sap2"))
    ensures r.Err? ==> fs.files == old(fs.files)
    ensures src.Some? ==> var mm := MasterMap(master, codeCol, msrpCol);
      && (mm.Err? ==> r == Err(ReadCsvFailed(mm.error)))
      && (mm.Ok? ==>
            var e := EnrichText(old(fs.files)[src.value], headerRows, mm.value, MainFile(docnums), resolve, sniff);
            && (e.Err? ==> r == Err(e.error))
            && (e.Ok? && overwrite ==>
                  r == Ok((e.value.1, src.value))
                  && fs.files == Overwritten(old(fs.files), src.value, e.value.0, backupRefused))
            && (e.Ok? && !overwrite ==>
                  r == Ok((e.value.1, OutPath(folder, MainUpdatedName)))
                  && fs.files == old(fs.files)[OutPath(folder, MainUpdatedName) := e.value.0]))
    ensures src.Some? ==> src.value in fs.files && forall k :: |old(fs.trace)| - 1 <= k < |fs.trace| ==>
              src.value in fs.trace[k]
              && (fs.trace[k][src.value] == old(fs.files)[src.value] || fs.trace[k][src.value] == fs.files[src.value])
  {
    src := PickFirst(fs.files, folder, Glob("sap2"));
    if src.None? {
      r := Err(NoInput("sap2"));
      return;
    }
    var path := src.value;
    var mm := LoadMsrpMap(master, codeCol, msrpCol);
    if mm.Err? {
      r := Err(ReadCsvFailed(mm.error));
      return;
    }
    var out, count := Reprice(fs.files[path], headerRows, mm.value, MainFile(docnums), resolve, sniff);
    if out.Err? {
      r := Err(out.error);
      return;
    }
    var dest := SaveMain(fs, folder, path, out.value, overwrite, backupRefused);
    r := Ok((count, dest));
  }

  /**
   * The last step of `apply_msrp_to_sap2_main`: replace the picked file in
   * place, or write minus_0/sap2_main_updated.txt beside it. The picked file
   * holds its old text or the new one at every state along the way.
   */
  method SaveMain(fs: FileStore, folder: string, path: string, text: string, overwrite: bool, backupRefused: bool)
    returns (dest: string)
    requires fs.Valid() && path in fs.files && InFolder(path, folder)
    modifies fs
    ensures fs.Valid()
    ensures overwrite ==> dest == path && fs.files == Overwritten(old(fs.files), path, text, backupRefused)
    ensures !overwrite ==>
      dest == OutPath(folder, MainUpdatedName) && fs.files == old(fs.files)[dest := text]
    ensures path in fs.files && forall k :: |old(fs.trace)| - 1 <= k < |fs.trace| ==>
              path in fs.trace[k]
              && (fs.trace[k][path] == old(fs.files)[path] || fs.trace[k][path] == fs.files[path])
  {
    if overwrite {
      OverwriteInPlace(fs, path, text, backupRefused);
      OverwrittenSpec(old(fs.files), path, text, backupRefused);
      dest := path;
    } else {
      dest := OutPath(folder, MainUpdatedName);
      OutPathNotInFolder(folder, MainUpdatedName);
      fs.Write(dest, text);
    }
  }
}
