/**
 * Edit_minus0.py: one pass over a folder. The first sap1 file is split on
 * the keyword, both halves are repriced from the master data, and the
 * first sap2 file's lines are routed by the DocNums of the keyword lines.
 * Unlike Automation.py it tolerates missing price columns (the lines pass
 * through), keeps every line it does not price byte for byte, accepts an
 * empty master map, and finds the DocNum column by its first occurrence.
 */
module EditMinus0 {
  import opened Wrappers
  import opened Strings
  import opened Table
  import opened Numbers
  import opened Enrich
  import opened AutomationApply
  import opened MasterData
  import opened Partition
  import opened Folder
  import opened Files
  import opened Steps
  import opened Negative

  // ---------------------------------------------------------- master data

  /**
   * The csv branch of `load_msrp_map`: header names compared lower-cased
   * (not trimmed); a missing column is the only failure, an empty map is a
   * map.
   */
  function MasterMap(t: CsvTable, codeCol: string, msrpCol: string): (r: Option<map<string, real>>)
    ensures r.None? <==> MasterCols(t.fieldnames, codeCol, msrpCol, false).None?
    ensures r.Some? ==> "" !in r.value
  {
    match MasterCols(t.fieldnames, codeCol, msrpCol, false)
    case None => None
    case Some((cc, mc)) =>
      MsrpMapNoEmptyKey(t.rows, cc, mc);
      Some(MsrpMap(t.rows, cc, mc))
  }

  /**
   * Once the columns resolve the map is the fold of the records, and it is
   * empty exactly when no record has both a code and a parsable MSRP.
   */
  lemma MasterMapSpec(t: CsvTable, codeCol: string, msrpCol: string)
    requires MasterCols(t.fieldnames, codeCol, msrpCol, false).Some?
    ensures var (cc, mc) := MasterCols(t.fieldnames, codeCol, msrpCol, false).value;
      && MasterMap(t, codeCol, msrpCol) == Some(MsrpMap(t.rows, cc, mc))
      && (MsrpMap(t.rows, cc, mc) == map[] <==> forall i :: 0 <= i < |t.rows| ==> Entry(t.rows[i], cc, mc).None?)
  {
    var (cc, mc) := MasterCols(t.fieldnames, codeCol, msrpCol, false).value;
    var m := MsrpMap(t.rows, cc, mc);
    if m == map[] {
      forall i | 0 <= i < |t.rows| ensures Entry(t.rows[i], cc, mc).None? {
        if Entry(t.rows[i], cc, mc).Some? {
          MsrpMapKeys(t.rows, cc, mc, RowCode(t.rows[i], cc));
        }
      }
    } else {
      var code :| code in m;
      MsrpMapKeys(t.rows, cc, mc, code);
    }
  }

  /** `load_msrp_map`: the header check, then the loop that fills the map. */
  method LoadMsrpMap(t: CsvTable, codeCol: string, msrpCol: string) returns (r: Option<map<string, real>>)
    ensures r == MasterMap(t, codeCol, msrpCol)
  {
    var cols := MasterCols(t.fieldnames, codeCol, msrpCol, false);
    if cols.None? {
      return None;
    }
    var out := BuildMsrpMap(t.rows, cols.value.0, cols.value.1);
    return Some(out);
  }

  // -------------------------------------------------------------- columns

  const ProductAliases := ["itemcode", "code", "productcode", "sku", "item_code"]
  const GpAliases := ["gpbefdisc", "gpbeforediscount", "gp_bef_disc"]
  const PriceAliases := ["priceafvat", "price_after_vat", "price"]
  const TotalAliases := ["gtotal", "grandtotal", "total"]
  const QtyAliases := ["quantity", "qty", "qty1"]

  /** The five `find_col` lookups of `rewrite_rows_with_msrp`; None when any is unresolved. */
  function FindCols(cols: seq<string>): Option<PriceCols> {
    var item := FindIndexCI(cols, ProductAliases);
    var gp := FindIndexCI(cols, GpAliases);
    var price := FindIndexCI(cols, PriceAliases);
    var total := FindIndexCI(cols, TotalAliases);
    var qty := FindIndexCI(cols, QtyAliases);
    if item.None? || gp.None? || price.None? || total.None? || qty.None? then None
    else Some(PriceCols(item.value, gp.value, price.value, total.value, qty.value))
  }

  /**
   * `find_col` tests `is not None`, so a product column at position 0 is
   * found: an "ItemCode" first column, with no later one, resolves to 0.
   */
  lemma ProductAtZero(cols: seq<string>)
    requires |cols| > 0 && Norm(cols[0]) == "itemcode"
    requires forall j :: 0 < j < |cols| ==> Norm(cols[j]) != "itemcode"
    ensures FindIndexCI(cols, ProductAliases) == Some(0)
  {
    LowerKeeps("itemcode");
    FindIndexCIFirst(cols, ProductAliases, 0);
  }

  // -------------------------------------------------------------- rewrite

  /** The line written for a body line: the re-serialised priced row, or the line itself. */
  function KeepOrPrice(d: Dialect, c: PriceCols, m: map<string, real>): string -> (string, bool) {
    line =>
      var (r, priced) := PriceIfKnown(ParseRow(line, d), c, m, Fmt2, Total);
      if priced then (Serialize(r, d), true) else (line, false)
  }

  /** What `rewrite_rows_with_msrp` returns: the body itself when a column is missing. */
  function RewriteRows(headerLine: string, body: seq<string>, d: Dialect, m: map<string, real>): seq<string> {
    match FindCols(ParseRow(headerLine, d))
    case None => body
    case Some(c) => Mapped(body, KeepOrPrice(d, c, m))
  }

  /** `rewrite_rows_with_msrp`. */
  method RewriteRowsWithMsrp(headerLine: string, body: seq<string>, d: Dialect, m: map<string, real>)
    returns (out: seq<string>)
    ensures out == RewriteRows(headerLine, body, d, m)
  {
    var c := FindCols(ParseRow(headerLine, d));
    if c.None? {
      return body;
    }
    var count;
    out, count := RewriteBody(body, KeepOrPrice(d, c.value, m));
  }

  /** A body line the rewrite prices: its trimmed, upper-cased code is a key of the map. */
  predicate PricedBody(line: string, d: Dialect, c: PriceCols, m: map<string, real>) {
    var code := ItemCode(ParseRow(line, d), c.item);
    code != "" && code in m
  }

  /**
   * One line: an unpriced line comes out byte for byte; a priced one is a
   * single line ending in "\n" that reads back as the row with GPBefDisc and
   * PriceAfVAT set to the formatted MSRP and GTotal to the formatted MSRP
   * times the quantity, every other field as it was.
   */
  lemma KeepOrPriceSpec(line: string, d: Dialect, c: PriceCols, m: map<string, real>)
    requires ValidDialect(d)
    ensures var (out, priced) := KeepOrPrice(d, c, m)(line);
      var row := ParseRow(line, d);
      var code := ItemCode(row, c.item);
      && (priced <==> PricedBody(line, d, c, m))
      && (!priced ==> out == line)
      && (priced ==>
            && IsLine(out) && EndsInNewline(out)
            && ParseRow(out, d) == WritePrices(row, c, Fmt2(m[code]), Total(m[code], FieldOr(row, c.qty))))
  {
    var code := ItemCode(ParseRow(line, d), c.item);
    if code != "" && code in m {
      KeepOrPricePriced(line, d, c, m);
    } else {
      assert PriceIfKnown(ParseRow(line, d), c, m, Fmt2, Total) == (ParseRow(line, d), false);
    }
  }

  /** A line whose code has an MSRP is priced and written as one line that reads back as the priced row. */
  lemma KeepOrPricePriced(line: string, d: Dialect, c: PriceCols, m: map<string, real>)
    requires ValidDialect(d)
    requires ItemCode(ParseRow(line, d), c.item) != "" && ItemCode(ParseRow(line, d), c.item) in m
    ensures var (out, priced) := KeepOrPrice(d, c, m)(line);
      var row := ParseRow(line, d);
      var code := ItemCode(row, c.item);
      && priced && PricedBody(line, d, c, m)
      && IsLine(out) && EndsInNewline(out)
      && ParseRow(out, d) == WritePrices(row, c, Fmt2(m[code]), Total(m[code], FieldOr(row, c.qty)))
  {
    var row := ParseRow(line, d);
    var code := ItemCode(row, c.item);
    assert FieldOr(row, c.item) != "";
    var p := WritePrices(row, c, Fmt2(m[code]), Total(m[code], FieldOr(row, c.qty)));
    Fmt2Plain(m[code], d);
    TotalPlain(m[code], FieldOr(row, c.qty), d);
    assert PriceIfKnown(row, c, m, Fmt2, Total) == (p, true);
    PricedRowReadsBack(row, c, Fmt2(m[code]), Total(m[code], FieldOr(row, c.qty)), d);
  }

  /** A priced row with its code in place is written as one line that reads back as that row. */
  lemma PricedRowReadsBack(row: seq<string>, c: PriceCols, unit: string, total: string, d: Dialect)
    requires ValidDialect(d)
    requires forall k :: 0 <= k < |row| ==> PlainField(row[k], d)
    requires FieldOr(row, c.item) != ""
    requires PlainField(unit, d) && PlainField(total, d) && unit != "" && total != ""
    ensures var p := WritePrices(row, c, unit, total);
      ParseRow(Serialize(p, d), d) == p && IsLine(Serialize(p, d)) && EndsInNewline(Serialize(p, d))
  {
    var p := WritePrices(row, c, unit, total);
    WritePricesPlain(row, c, unit, total, d);
    assert p != [""] by {
      if |p| == 1 {
        assert c.item == 0;
      }
    }
    RowRoundTrip(p, d);
    SerializedIsLine(p, d);
  }

  /**
   * `rewrite_rows_with_msrp`: exactly one output line per input line, in
   * order; the body itself when a price column is missing; otherwise each
   * line is the one `KeepOrPrice` writes for it.
   */
  lemma RewriteRowsSpec(headerLine: string, body: seq<string>, d: Dialect, m: map<string, real>)
    requires ValidDialect(d)
    ensures var out := RewriteRows(headerLine, body, d, m);
      && |out| == |body|
      && (FindCols(ParseRow(headerLine, d)).None? ==> out == body)
      && (FindCols(ParseRow(headerLine, d)).Some? ==>
            var c := FindCols(ParseRow(headerLine, d)).value;
            forall i :: 0 <= i < |body| ==> out[i] == KeepOrPrice(d, c, m)(body[i]).0)
      && forall i :: 0 <= i < |body| ==> out[i] == body[i] || (IsLine(out[i]) && EndsInNewline(out[i]))
  {
    var out := RewriteRows(headerLine, body, d, m);
    match FindCols(ParseRow(headerLine, d))
    case None =>
    case Some(c) =>
      forall i | 0 <= i < |body| ensures out[i] == body[i] || (IsLine(out[i]) && EndsInNewline(out[i])) {
        KeepOrPriceSpec(body[i], d, c, m);
      }
  }

  // --------------------------------------------------------------- folder

  datatype EditFailure =
    | MissingInput                  // no sap1 or no sap2 file: SystemExit before anything is written
    | MasterUnreadable              // `load_msrp_map` raised
    | NoHeaderLine(path: string)    // `head[-1]` on an empty header

  datatype Sap1Out = Sap1Out(onlyNegative: string, withoutNegative: string, docnums: seq<string>, count: nat)

  /**
   * The sap1 half: the partition decided on the original lines (keyword
   * compared lower-cased), then each half repriced on its own.
   */
  function Sap1Text(text: string, n: int, keyword: string, m: map<string, real>,
                    sniff: string -> Option<char>): Option<Sap1Out> {
    match ReadLayout(text, n, sniff)
    case None => None
    case Some(lay) => Some(Sap1Of(lay, keyword, m))
  }

  /** The sap1 outputs of a layout with a header line. */
  function Sap1Of(lay: Layout, keyword: string, m: map<string, real>): Sap1Out
    requires |lay.head| > 0
  {
    var h := lay.head[|lay.head| - 1];
    var marked := Marked(lay.body, keyword, true);
    Sap1Out(Concat(lay.head) + Concat(RewriteRows(h, marked, lay.d, m)),
            Concat(lay.head) + Concat(RewriteRows(h, Unmarked(lay.body, keyword, true), lay.d, m)),
            Gathered(marked, DocCol(lay), lay.d, Trimmed),
            TotalOccurrences(lay.body, keyword, true))
  }

  /**
   * For a file read as `lay`, the sap1 outputs are `Sap1Of(lay)`: they read back as the header followed by the repriced
   * keyword lines and the repriced other lines; together the two hold one
   * line per body line; a DocNum is found exactly when it is the trimmed,
   * non-empty DocNum field of a keyword line.
   */
  lemma Sap1TextSpec(text: string, n: nat, keyword: string, m: map<string, real>, sniff: string -> Option<char>, lay: Layout)
    requires ReadLayout(text, n, sniff) == Some(lay)
    ensures Sap1Text(text, n, keyword, m, sniff) == Some(Sap1Of(lay, keyword, m))
    ensures var h := lay.head[|lay.head| - 1];
      var s := Sap1Of(lay, keyword, m);
      var marked := Marked(lay.body, keyword, true);
      var unmarked := Unmarked(lay.body, keyword, true);
      && IterRows(s.onlyNegative, n) == (lay.head, RewriteRows(h, marked, lay.d, m))
      && IterRows(s.withoutNegative, n) == (lay.head, RewriteRows(h, unmarked, lay.d, m))
      && multiset(marked) + multiset(unmarked) == multiset(lay.body)
      && |RewriteRows(h, marked, lay.d, m)| + |RewriteRows(h, unmarked, lay.d, m)| == |lay.body|
      && s.count == TotalOccurrences(marked, keyword, true)
      && (forall key :: key in s.docnums <==>
            key != "" && exists l :: l in marked && KeyOf(l, DocCol(lay), lay.d, Trimmed) == key)
  {
    MarkedReadsBack(text, n, keyword, m, sniff);
    UnmarkedReadsBack(text, n, keyword, m, sniff);
    Sap1Contents(lay, keyword, m);
  }

  /** The keyword output reads back as the header followed by the repriced keyword lines. */
  lemma MarkedReadsBack(text: string, n: nat, keyword: string, m: map<string, real>, sniff: string -> Option<char>)
    requires ReadLayout(text, n, sniff).Some?
    ensures var lay := ReadLayout(text, n, sniff).value;
      var half := RewriteRows(lay.head[|lay.head| - 1], Marked(lay.body, keyword, true), lay.d, m);
      IterRows(Concat(lay.head) + Concat(half), n) == (lay.head, half)
  {
    var lay := ReadLayout(text, n, sniff).value;
    ReadBack(text, n, HasKeyword(keyword, true));
    RewriteHalfReadsBack(lay.head, Marked(lay.body, keyword, true), n, lay.head[|lay.head| - 1], lay.d, m);
  }

  /** The other output reads back as the header followed by the repriced other lines. */
  lemma UnmarkedReadsBack(text: string, n: nat, keyword: string, m: map<string, real>, sniff: string -> Option<char>)
    requires ReadLayout(text, n, sniff).Some?
    ensures var lay := ReadLayout(text, n, sniff).value;
      var half := RewriteRows(lay.head[|lay.head| - 1], Unmarked(lay.body, keyword, true), lay.d, m);
      IterRows(Concat(lay.head) + Concat(half), n) == (lay.head, half)
  {
    var lay := ReadLayout(text, n, sniff).value;
    ReadBackRejected(text, n, HasKeyword(keyword, true));
    RewriteHalfReadsBack(lay.head, Unmarked(lay.body, keyword, true), n, lay.head[|lay.head| - 1], lay.d, m);
  }

  /** The two halves share out the body; the count and the DocNums come from the keyword lines. */
  lemma Sap1Contents(lay: Layout, keyword: string, m: map<string, real>)
    requires |lay.head| > 0 && ValidDialect(lay.d)
    ensures var h := lay.head[|lay.head| - 1];
      var s := Sap1Of(lay, keyword, m);
      var marked := Marked(lay.body, keyword, true);
      var unmarked := Unmarked(lay.body, keyword, true);
      && multiset(marked) + multiset(unmarked) == multiset(lay.body)
      && |RewriteRows(h, marked, lay.d, m)| + |RewriteRows(h, unmarked, lay.d, m)| == |lay.body|
      && s.count == TotalOccurrences(marked, keyword, true)
      && (forall key :: key in s.docnums <==>
            key != "" && exists l :: l in marked && KeyOf(l, DocCol(lay), lay.d, Trimmed) == key)
  {
    var h := lay.head[|lay.head| - 1];
    var marked := Marked(lay.body, keyword, true);
    var unmarked := Unmarked(lay.body, keyword, true);
    KeywordPartition(lay.body, keyword, true);
    TotalOverMarked(lay.body, keyword, true);
    RewriteRowsSpec(h, marked, lay.d, m);
    RewriteRowsSpec(h, unmarked, lay.d, m);
    assert |marked| + |unmarked| == |lay.body| by {
      assert |multiset(marked) + multiset(unmarked)| == |multiset(lay.body)|;
    }
    forall key ensures key in Gathered(marked, DocCol(lay), lay.d, Trimmed) <==>
        key != "" && exists l :: l in marked && KeyOf(l, DocCol(lay), lay.d, Trimmed) == key
    {
      GatheredIn(marked, DocCol(lay), lay.d, Trimmed, key);
    }
  }

  /** A file of header and lines that reads back as such still does once the lines are repriced. */
  lemma RewriteHalfReadsBack(head: seq<string>, half: seq<string>, n: nat, h: string, d: Dialect, m: map<string, real>)
    requires ValidDialect(d)
    requires IterRows(Concat(head) + Concat(half), n) == (head, half)
    ensures IterRows(Concat(head) + Concat(RewriteRows(h, half, d, m)), n) == (head, RewriteRows(h, half, d, m))
    ensures |RewriteRows(h, half, d, m)| == |half|
  {
    RewriteRowsSpec(h, half, d, m);
    MappedReadsBack(Concat(head) + Concat(half), n, RewriteRows(h, half, d, m));
  }

  // --------------------------------------------------------------- loops

  /** The sap1 half as `process_folder` runs it: the keyword loop, then both rewrites. */
  method Sap1Step(text: string, headerRows: int, keyword: string, m: map<string, real>, sniff: string -> Option<char>)
    returns (r: Option<Sap1Out>)
    ensures r == Sap1Text(text, headerRows, keyword, m, sniff)
  {
    var lay := ReadLayout(text, headerRows, sniff);
    if lay.None? {
      return None;
    }
    var out := Sap1Rewrite(lay.value, keyword, m);
    r := Some(out);
  }

  /** The keyword loop over the body of a layout, then the rewrite of each half. */
  method Sap1Rewrite(lay: Layout, keyword: string, m: map<string, real>) returns (out: Sap1Out)
    requires |lay.head| > 0
    ensures out == Sap1Of(lay, keyword, m)
  {
    var head := lay.head;
    var h := head[|head| - 1];
    var withKw, withoutKw, docnums, count := SplitByKeyword(lay.body, keyword, true, DocCol(lay), lay.d, Trimmed);
    withKw := RewriteRowsWithMsrp(h, withKw, lay.d, m);
    withoutKw := RewriteRowsWithMsrp(h, withoutKw, lay.d, m);
    out := Sap1Out(Concat(head) + Concat(withKw), Concat(head) + Concat(withoutKw), docnums, count);
  }

  /**
   * `process_folder`: both inputs are picked before anything else; a missing
   * one, an unreadable master or an empty sap1 header stops the run with
   * nothing written; an empty sap2 header stops it after the two sap1
   * outputs are written; otherwise all four outputs are written and the
   * keyword total and the number of DocNums are returned.
   */
  method ProcessFolder(fs: FileStore, folder: string, master: CsvTable, codeCol: string, msrpCol: string,
                       headerRows: int, keyword: string, sniff: string -> Option<char>)
    returns (sap1: Option<string>, sap2: Option<string>, r: Result<Summary, EditFailure>)
    requires fs.Valid()
    modifies fs
    ensures fs.Valid()
    ensures sap1.None? <==> forall p :: p in old(fs.files) ==> !Candidate(p, folder, Glob("sap1"))
    ensures sap2.None? <==> forall p :: p in old(fs.files) ==> !Candidate(p, folder, Glob("sap2"))
    ensures sap1.Some? ==> IsPick(old(fs.files), folder, Glob("sap1"), sap1.value)
    ensures sap2.Some? ==> IsPick(old(fs.files), folder, Glob("sap2"), sap2.value)
    ensures (sap1.None? || sap2.None?) ==> r == Err(MissingInput) && fs.files == old(fs.files)
    ensures sap1.Some? && sap2.Some? ==>
      var m := MasterMap(master, codeCol, msrpCol);
      && (m.None? ==> r == Err(MasterUnreadable) && fs.files == old(fs.files))
      && (m.Some? ==> EditOutcome(old(fs.files), folder, sap1.value, sap2.value, m.value, headerRows, keyword, sniff) == (r, fs.files))
  {
    sap1 := PickFirst(fs.files, folder, Glob("sap1"));
    sap2 := PickFirst(fs.files, folder, Glob("sap2"));
    if sap1.None? || sap2.None? {
      r := Err(MissingInput);
      return;
    }
    var m := LoadMsrpMap(master, codeCol, msrpCol);
    if m.None? {
      r := Err(MasterUnreadable);
      return;
    }
    r := RunSteps(fs, folder, sap1.value, sap2.value, m.value, headerRows, keyword, sniff);
  }

  /**
   * What the run leaves behind once both inputs are picked and the map is
   * loaded: the result and the new files.
   */
  function EditOutcome(files: map<string, string>, folder: string, sap1: string, sap2: string, m: map<string, real>,
                   headerRows: int, keyword: string, sniff: string -> Option<char>): (Result<Summary, EditFailure>, map<string, string>)
    requires sap1 in files && sap2 in files
  {
    match Sap1Text(files[sap1], headerRows, keyword, m, sniff)
    case None => (Err(NoHeaderLine(sap1)), files)
    case Some(s1) => AfterSap1(files, folder, sap2, s1, headerRows, sniff)
  }

  /** The sap1 outputs written, then sap2 routed by the DocNums sap1 gathered. */
  function AfterSap1(files: map<string, string>, folder: string, sap2: string, s1: Sap1Out,
                     headerRows: int, sniff: string -> Option<char>): (Result<Summary, EditFailure>, map<string, string>)
    requires sap2 in files
  {
    var w := files[OutPath(folder, OnlyNegativeName) := s1.onlyNegative]
                  [OutPath(folder, WithoutNegativeName) := s1.withoutNegative];
    match RouteText(files[sap2], headerRows, SetOf(s1.docnums), Trimmed, sniff)
    case None => (Err(NoHeaderLine(sap2)), w)
    case Some(s2) =>
      (Ok(Summary(s1.count, |s1.docnums|)),
       w[OutPath(folder, MatchName) := s2.matched][OutPath(folder, OthersName) := s2.others])
  }

  /** Steps after the checks: sap1 is read and its outputs written before sap2 is read. */
  method RunSteps(fs: FileStore, folder: string, sap1: string, sap2: string, m: map<string, real>,
                  headerRows: int, keyword: string, sniff: string -> Option<char>)
    returns (r: Result<Summary, EditFailure>)
    requires fs.Valid() && sap1 in fs.files && sap2 in fs.files && InFolder(sap2, folder)
    modifies fs
    ensures fs.Valid()
    ensures (r, fs.files) == EditOutcome(old(fs.files), folder, sap1, sap2, m, headerRows, keyword, sniff)
  {
    var s1 := Sap1Step(fs.files[sap1], headerRows, keyword, m, sniff);
    if s1.None? {
      return Err(NoHeaderLine(sap1));
    }
    r := WriteAndRoute(fs, folder, sap2, s1.value, headerRows, sniff);
  }

  /** The sap1 outputs are written before sap2 is read; sap2 lies in the folder, so the writes leave it as it was. */
  method WriteAndRoute(fs: FileStore, folder: string, sap2: string, s1: Sap1Out, headerRows: int, sniff: string -> Option<char>)
    returns (r: Result<Summary, EditFailure>)
    requires fs.Valid() && sap2 in fs.files && InFolder(sap2, folder)
    modifies fs
    ensures fs.Valid()
    ensures (r, fs.files) == AfterSap1(old(fs.files), folder, sap2, s1, headerRows, sniff)
  {
    OutPathNotInFolder(folder, OnlyNegativeName);
    OutPathNotInFolder(folder, WithoutNegativeName);
    fs.Write(OutPath(folder, OnlyNegativeName), s1.onlyNegative);
    fs.Write(OutPath(folder, WithoutNegativeName), s1.withoutNegative);
    assert fs.files[sap2] == old(fs.files)[sap2];
    var s2 := RouteStep(fs.files[sap2], headerRows, SetOf(s1.docnums), Trimmed, sniff);
    if s2.None? {
      return Err(NoHeaderLine(sap2));
    }
    fs.Write(OutPath(folder, MatchName), s2.value.matched);
    fs.Write(OutPath(folder, OthersName), s2.value.others);
    r := Ok(Summary(s1.count, |s1.docnums|));
  }

}
