/**
 * The two MSRP steps of Automation.py, `apply_msrp_to_sap2_match` and
 * `apply_msrp_to_sap2_main`: column resolution through `or`-chained
 * aliases, the missing-column error, and the per-row rewrite of every body
 * line (description cleanup, then pricing), each row written back through
 * the CSV writer.
 */
module AutomationApply {
  import opened Wrappers
  import opened Strings
  import opened Table
  import opened Numbers
  import opened Enrich
  import opened Partition

  // ------------------------------------------------------ column lookup

  /** Python truthiness of a looked-up index: both None and 0 are false. */
  predicate Truthy(i: Option<nat>) {
    i.Some? && i.value != 0
  }

  /** `a or b` on two looked-up indices. */
  function Or(a: Option<nat>, b: Option<nat>): Option<nat> {
    if Truthy(a) then a else b
  }

  /**
   * `gi(nm)`, i.e. `colmap.get(nm.lower())`. Every name the functions pass
   * is lower-case already, so the lookup is on the name itself
   * (`GiLowerCase`).
   */
  function Gi(cols: seq<string>, nm: string): Option<nat> {
    LastIndexOf(cols, nm)
  }

  /** For a name without upper-case letters, `gi` is the lookup of the lower-cased name. */
  lemma GiLowerCase(cols: seq<string>, nm: string)
    requires forall i :: 0 <= i < |nm| ==> !('A' <= nm[i] <= 'Z')
    ensures Gi(cols, nm) == LastIndexOf(cols, Lower(nm))
  {
    LowerKeeps(nm);
  }

  /** The indices both functions look up, before the missing check. */
  datatype Lookup = Lookup(doc: Option<nat>, item: Option<nat>, gp: Option<nat>, price: Option<nat>,
                           total: Option<nat>, qty: Option<nat>, desc: Option<nat>)

  /** The alias chains as written, `or` treating index 0 like a missing column. */
  function Resolve(cols: seq<string>): Lookup {
    Lookup(
      Gi(cols, "docnum"),
      Or(Gi(cols, "itemcode"), LastIndexOf(cols, "code")),
      Gi(cols, "gpbefdisc"),
      Or(Gi(cols, "priceafvat"), LastIndexOf(cols, "price_after_vat")),
      Gi(cols, "gtotal"),
      Gi(cols, "quantity"),
      Or(Gi(cols, "itemdescription"), Or(Gi(cols, "item description"), Or(Gi(cols, "description"),
        Or(Gi(cols, "dscription"), Gi(cols, "itemname"))))))
  }

  /** `[n for n, i in need if i is None]`. */
  function Missing(need: seq<(string, Option<nat>)>): (miss: seq<string>)
    ensures |miss| <= |need|
    ensures miss == [] <==> forall k :: 0 <= k < |need| ==> need[k].1.Some?
    ensures forall k :: 0 <= k < |need| && need[k].1.None? ==> need[k].0 in miss
    decreases |need|
  {
    if |need| == 0 then []
    else (if need[0].1.None? then [need[0].0] else []) + Missing(need[1..])
  }

  /** Only unresolved columns are reported: a reported name belongs to an entry without an index. */
  lemma {:induction false} MissingOnly(need: seq<(string, Option<nat>)>, x: string)
    requires x in Missing(need)
    ensures exists k :: 0 <= k < |need| && need[k].0 == x && need[k].1.None?
    decreases |need|
  {
    if !(need[0].1.None? && x == need[0].0) {
      MissingOnly(need[1..], x);
      var k :| 0 <= k < |need[1..]| && need[1..][k].0 == x && need[1..][k].1.None?;
      assert need[k + 1] == need[1..][k];
    }
  }

  /** The columns `apply_msrp_to_sap2_match` requires. */
  function MatchNeed(l: Lookup): seq<(string, Option<nat>)> {
    [("ItemCode", l.item), ("GPBefDisc", l.gp), ("PriceAfVAT", l.price), ("GTotal", l.total), ("Quantity", l.qty)]
  }

  /** The columns `apply_msrp_to_sap2_main` requires: DocNum as well. */
  function MainNeed(l: Lookup): seq<(string, Option<nat>)> {
    [("DocNum", l.doc)] + MatchNeed(l)
  }

  /** The price columns, once the missing check has passed. */
  function PriceColsOf(l: Lookup): PriceCols
    requires l.item.Some? && l.gp.Some? && l.price.Some? && l.total.Some? && l.qty.Some?
  {
    PriceCols(l.item.value, l.gp.value, l.price.value, l.total.value, l.qty.value)
  }

  /**
   * The `or` chain drops a real column: a header whose only ItemCode column
   * is the first one, with no "code" column, resolves ItemCode to nothing and
   * the match step reports it missing.
   */
  lemma ItemCodeAtZeroIsMissing(cols: seq<string>)
    requires |cols| > 0 && Norm(cols[0]) == "itemcode"
    requires forall j :: 0 < j < |cols| ==> Norm(cols[j]) != "itemcode"
    requires forall j :: 0 <= j < |cols| ==> Norm(cols[j]) != "code"
    ensures Resolve(cols).item.None?
    ensures "ItemCode" in Missing(MatchNeed(Resolve(cols)))
  {
    var l := Resolve(cols);
    assert MatchNeed(l)[0] == ("ItemCode", l.item);
  }

  const ItemAliases := ["itemcode", "code"]
  const DescAliases := ["itemdescription", "item description", "description", "dscription", "itemname"]

  /**
   * The lookup the aliases evidently mean: the first alias that is present,
   * wherever it is, as the `is not None` chains of Edit_minus0.py do.
   */
  function ResolveIntended(cols: seq<string>): Lookup {
    Lookup(
      FindIndexCI(cols, ["docnum"]),
      FindIndexCI(cols, ItemAliases),
      FindIndexCI(cols, ["gpbefdisc"]),
      FindIndexCI(cols, ["priceafvat", "price_after_vat"]),
      FindIndexCI(cols, ["gtotal"]),
      FindIndexCI(cols, ["quantity"]),
      FindIndexCI(cols, DescAliases))
  }

  /** The two alias lists are lower-case and share no name. */
  lemma AliasesApart()
    ensures LowerNames(ItemAliases) && LowerNames(DescAliases)
    ensures forall i, j :: 0 <= i < |DescAliases| && 0 <= j < |ItemAliases| ==> DescAliases[i] != ItemAliases[j]
  {
  }

  /** The intended lookup never resolves the description to the ItemCode column. */
  lemma ResolveIntendedApart(cols: seq<string>)
    ensures var l := ResolveIntended(cols);
      l.desc.None? || l.item.None? || l.desc != l.item
  {
    var item := FindIndexCI(cols, ItemAliases);
    var desc := FindIndexCI(cols, DescAliases);
    assert ResolveIntended(cols).item == item && ResolveIntended(cols).desc == desc;
    if desc.Some? && item.Some? {
      AliasesApart();
      FindIndexCIApart(cols, DescAliases, ItemAliases);
    }
  }

  /** With the intended lookup a present ItemCode column is found at any position, 0 included. */
  lemma ResolveIntendedFindsItem(cols: seq<string>, j: nat)
    requires j < |cols| && (Norm(cols[j]) == "itemcode" || Norm(cols[j]) == "code")
    ensures ResolveIntended(cols).item.Some?
    ensures "ItemCode" !in Missing([("ItemCode", ResolveIntended(cols).item)])
  {
    LowerKeeps("itemcode");
    LowerKeeps("code");
    FindIndexCINone(cols, ItemAliases);
    if Norm(cols[j]) == "itemcode" {
      assert ColumnOf(cols, ItemAliases, 0).Some?;
    } else {
      assert ColumnOf(cols, ItemAliases, 1).Some?;
    }
  }

  // --------------------------------------------------------- row rewrite

  /** `if desc is not None and desc < len(row) and row[desc]: row[desc] = f(row[desc])`. */
  function MapField(row: seq<string>, desc: Option<nat>, f: string -> string): (r: seq<string>)
    ensures |r| == |row|
    ensures forall j :: 0 <= j < |row| && (desc.None? || j != desc.value) ==> r[j] == row[j]
    ensures desc.Some? && desc.value < |row| ==>
      r[desc.value] == if row[desc.value] != "" then f(row[desc.value]) else ""
  {
    if desc.Some? && desc.value < |row| && row[desc.value] != "" then row[desc.value := f(row[desc.value])]
    else row
  }

  /**
   * Which rows take part: every row in the match step; in the main step
   * only rows whose trimmed DocNum is among the targets.
   */
  datatype Gate = Every | DocIn(doc: nat, targets: set<string>)

  predicate Eligible(row: seq<string>, g: Gate) {
    match g
    case Every => true
    case DocIn(doc, targets) => Strip(FieldOr(row, doc)) in targets
  }

  /**
   * The pricing of a cleaned row: when its trimmed, upper-cased code is a
   * key of the map with price `msrp`, `unit(msrp)` into GPBefDisc and
   * PriceAfVAT and `total(msrp, quantity field)` into GTotal.
   */
  function PriceIfKnown(r: seq<string>, c: PriceCols, m: map<string, real>,
                        unit: real -> string, total: (real, string) -> string): (seq<string>, bool)
  {
    var code := ItemCode(r, c.item);
    if code != "" && code in m then (WritePrices(r, c, unit(m[code]), total(m[code], FieldOr(r, c.qty))), true)
    else (r, false)
  }

  /** The rewrite of one row and whether it was priced, for a given cleanup, quantity reader and formatter. */
  function RewriteRow(row: seq<string>, g: Gate, c: PriceCols, desc: Option<nat>, m: map<string, real>,
                      clean: string -> string, unit: real -> string, total: (real, string) -> string): (seq<string>, bool)
  {
    if !Eligible(row, g) then (row, false)
    else PriceIfKnown(MapField(row, desc, clean), c, m, unit, total)
  }

  /** `fmt2(msrp * qty)`. */
  function Total(msrp: real, qtyField: string): string {
    Fmt2(Amount(msrp, qtyField))
  }

  /** `msrp * qty`, the quantity parsed from its field (0 when it does not parse). */
  function Amount(msrp: real, qtyField: string): real {
    msrp * ParseFloat(Some(qtyField)).GetOr(0.0)
  }

  /** A written total is a non-empty field with no delimiter and no line break. */
  lemma TotalPlain(msrp: real, qtyField: string, d: Dialect)
    requires ValidDialect(d)
    ensures PlainField(Total(msrp, qtyField), d) && Total(msrp, qtyField) != ""
  {
    Fmt2Plain(Amount(msrp, qtyField), d);
  }

  /** The rewrite both functions apply to a row: cleanup, then `fmt2` pricing. */
  function EnrichRow(row: seq<string>, g: Gate, c: PriceCols, desc: Option<nat>, m: map<string, real>): (seq<string>, bool) {
    RewriteRow(row, g, c, desc, m, CleanDesc, Fmt2, Total)
  }

  /** The line written for one body line, and whether it was priced. */
  function EnrichLine(d: Dialect, g: Gate, c: PriceCols, desc: Option<nat>, m: map<string, real>): string -> (string, bool) {
    line => var (r, priced) := EnrichRow(ParseRow(line, d), g, c, desc, m); (Serialize(r, d), priced)
  }

  /** The lines a per-line step writes, in order. */
  function Mapped(body: seq<string>, f: string -> (string, bool)): (out: seq<string>)
    ensures |out| == |body|
    ensures forall i :: 0 <= i < |body| ==> out[i] == f(body[i]).0
    decreases |body|
  {
    if |body| == 0 then [] else Mapped(body[..|body| - 1], f) + [f(body[|body| - 1]).0]
  }

  /** How many lines the step flagged. */
  function Flagged(body: seq<string>, f: string -> (string, bool)): (n: nat)
    ensures n <= |body|
    decreases |body|
  {
    if |body| == 0 then 0 else Flagged(body[..|body| - 1], f) + (if f(body[|body| - 1]).1 then 1 else 0)
  }

  /** The loop over the body lines: the written lines and the count of flagged ones. */
  method RewriteBody(body: seq<string>, step: string -> (string, bool)) returns (out: seq<string>, count: nat)
    ensures out == Mapped(body, step)
    ensures count == Flagged(body, step)
  {
    out, count := [], 0;
    var i := 0;
    while i < |body|
      invariant 0 <= i <= |body|
      invariant out == Mapped(body[..i], step)
      invariant count == Flagged(body[..i], step)
    {
      assert body[..i + 1][..i] == body[..i];
      var (line, flagged) := step(body[i]);
      out := out + [line];
      if flagged {
        count := count + 1;
      }
      i := i + 1;
    }
    assert body[..i] == body;
  }

  // ------------------------------------------------------------ lemmas

  /**
   * A priced row: the code was a key of the map; GPBefDisc and PriceAfVAT
   * hold the formatted price, GTotal the formatted price times the
   * quantity, every other field is as it was. An unpriced row is unchanged.
   */
  lemma PriceIfKnownSpec(r: seq<string>, c: PriceCols, m: map<string, real>, unit: real -> string, total: (real, string) -> string)
    ensures var (p, priced) := PriceIfKnown(r, c, m, unit, total);
      var code := ItemCode(r, c.item);
      && |p| == |r|
      && (priced <==> code != "" && code in m)
      && (!priced ==> p == r)
      && (priced ==> forall j :: 0 <= j < |r| ==>
            p[j] == (if j == c.total then total(m[code], FieldOr(r, c.qty))
                     else if j == c.price || j == c.gp then unit(m[code])
                     else r[j]))
  {
    var code := ItemCode(r, c.item);
    if code != "" && code in m {
      var p := WritePrices(r, c, unit(m[code]), total(m[code], FieldOr(r, c.qty)));
      assert PriceIfKnown(r, c, m, unit, total) == (p, true);
    }
  }

  /**
   * A rewritten row: an ineligible row is untouched; an eligible one has its
   * description cleaned (when present and non-empty) and is then priced from
   * the code it had, since cleaning never touches the code column.
   */
  lemma RewriteRowSpec(row: seq<string>, g: Gate, c: PriceCols, desc: Option<nat>, m: map<string, real>,
                       clean: string -> string, unit: real -> string, total: (real, string) -> string)
    requires desc.None? || desc.value != c.item
    ensures !Eligible(row, g) ==> RewriteRow(row, g, c, desc, m, clean, unit, total) == (row, false)
    ensures Eligible(row, g) ==> RewriteRow(row, g, c, desc, m, clean, unit, total)
                                  == PriceIfKnown(MapField(row, desc, clean), c, m, unit, total)
    ensures Eligible(row, g) ==> ItemCode(MapField(row, desc, clean), c.item) == ItemCode(row, c.item)
  {
    var r := MapField(row, desc, clean);
    assert FieldOr(r, c.item) == FieldOr(row, c.item);
  }

  /** Pricing a priced row again changes nothing, when the columns read and written differ. */
  lemma PriceIfKnownIdempotent(r: seq<string>, c: PriceCols, m: map<string, real>, unit: real -> string, total: (real, string) -> string)
    requires ReadsApart(c)
    ensures var p := PriceIfKnown(r, c, m, unit, total).0;
      PriceIfKnown(p, c, m, unit, total).0 == p
  {
    var code := ItemCode(r, c.item);
    if code != "" && code in m {
      var u, t := unit(m[code]), total(m[code], FieldOr(r, c.qty));
      var p := WritePrices(r, c, u, t);
      WritePricesKeepsReads(r, c, u, t);
      assert ItemCode(p, c.item) == code;
      WritePricesTwice(r, c, u, t);
    }
  }

  /** Rewriting a rewritten row again changes nothing, when the columns are distinct. */
  lemma RewriteRowIdempotent(row: seq<string>, g: Gate, c: PriceCols, desc: Option<nat>, m: map<string, real>,
                             clean: string -> string, unit: real -> string, total: (real, string) -> string)
    requires ReadsApart(c)
    requires desc.None? || (desc.value != c.item && desc.value != c.qty && desc.value != c.gp
                            && desc.value != c.price && desc.value != c.total)
    requires g.DocIn? ==> g.doc != c.gp && g.doc != c.price && g.doc != c.total && (desc.None? || g.doc != desc.value)
    requires forall s :: clean(clean(s)) == clean(s)
    ensures var r1 := RewriteRow(row, g, c, desc, m, clean, unit, total).0;
      RewriteRow(r1, g, c, desc, m, clean, unit, total).0 == r1
  {
    if Eligible(row, g) {
      var cleaned := MapField(row, desc, clean);
      var r1 := PriceIfKnown(cleaned, c, m, unit, total).0;
      PriceIfKnownSpec(cleaned, c, m, unit, total);
      assert g.DocIn? ==> FieldOr(r1, g.doc) == FieldOr(row, g.doc);
      assert Eligible(r1, g);
      MapFieldTwice(row, desc, clean);
      assert MapField(r1, desc, clean) == r1 by {
        if desc.Some? && desc.value < |row| {
          assert r1[desc.value] == cleaned[desc.value];
        }
      }
      PriceIfKnownIdempotent(cleaned, c, m, unit, total);
    }
  }

  lemma MapFieldTwice(row: seq<string>, desc: Option<nat>, f: string -> string)
    requires forall s :: f(f(s)) == f(s)
    ensures MapField(MapField(row, desc, f), desc, f) == MapField(row, desc, f)
  {
  }

  /** The enrichment of both steps is idempotent on rows whose columns are distinct. */
  lemma EnrichRowIdempotent(row: seq<string>, g: Gate, c: PriceCols, desc: Option<nat>, m: map<string, real>)
    requires ReadsApart(c)
    requires desc.None? || (desc.value != c.item && desc.value != c.qty && desc.value != c.gp
                            && desc.value != c.price && desc.value != c.total)
    requires g.DocIn? ==> g.doc != c.gp && g.doc != c.price && g.doc != c.total && (desc.None? || g.doc != desc.value)
    ensures EnrichRow(EnrichRow(row, g, c, desc, m).0, g, c, desc, m).0 == EnrichRow(row, g, c, desc, m).0
  {
    forall s ensures CleanDesc(CleanDesc(s)) == CleanDesc(s) {
      CleanDescIdempotent(s);
    }
    RewriteRowIdempotent(row, g, c, desc, m, CleanDesc, Fmt2, Total);
  }

  /** A rewrite keeps a row of plain fields plain, for a cleanup and formatters that do. */
  lemma RewriteRowPlain(row: seq<string>, g: Gate, c: PriceCols, desc: Option<nat>, m: map<string, real>,
                        clean: string -> string, unit: real -> string, total: (real, string) -> string, d: Dialect)
    requires forall k :: 0 <= k < |row| ==> PlainField(row[k], d)
    requires forall s {:trigger clean(s)} :: PlainField(s, d) ==> PlainField(clean(s), d)
    requires forall x :: PlainField(unit(x), d)
    requires forall x, f :: PlainField(total(x, f), d)
    ensures var r := RewriteRow(row, g, c, desc, m, clean, unit, total).0;
      forall k :: 0 <= k < |r| ==> PlainField(r[k], d)
  {
    var r := MapField(row, desc, clean);
    MapFieldPlain(row, desc, clean, d);
    var code := ItemCode(r, c.item);
    if Eligible(row, g) && code != "" && code in m {
      var msrp := m[code];
      assert PlainField(unit(msrp), d) && PlainField(total(msrp, FieldOr(r, c.qty)), d);
      WritePricesPlain(r, c, unit(msrp), total(msrp, FieldOr(r, c.qty)), d);
    }
  }

  lemma MapFieldPlain(row: seq<string>, desc: Option<nat>, f: string -> string, d: Dialect)
    requires forall k :: 0 <= k < |row| ==> PlainField(row[k], d)
    requires forall s {:trigger f(s)} :: PlainField(s, d) ==> PlainField(f(s), d)
    ensures forall k :: 0 <= k < |row| ==> PlainField(MapField(row, desc, f)[k], d)
  {
  }

  /** Rewriting a row the reader produced leaves every field plain. */
  lemma EnrichRowPlain(row: seq<string>, d: Dialect, g: Gate, c: PriceCols, desc: Option<nat>, m: map<string, real>)
    requires ValidDialect(d)
    requires forall k :: 0 <= k < |row| ==> PlainField(row[k], d)
    ensures var r := EnrichRow(row, g, c, desc, m).0;
      forall k :: 0 <= k < |r| ==> PlainField(r[k], d)
  {
    forall s | PlainField(s, d) ensures PlainField(CleanDesc(s), d) {
      CleanDescPlain(s, d);
    }
    forall x ensures PlainField(Fmt2(x), d) {
      Fmt2Plain(x, d);
    }
    RewriteRowPlain(row, g, c, desc, m, CleanDesc, Fmt2, Total, d);
  }

  /** What is written for a line reads back as the rewritten row. */
  lemma EnrichLineReadsBack(line: string, d: Dialect, g: Gate, c: PriceCols, desc: Option<nat>, m: map<string, real>)
    requires ValidDialect(d)
    requires EnrichRow(ParseRow(line, d), g, c, desc, m).0 != [""]
    ensures ParseRow(EnrichLine(d, g, c, desc, m)(line).0, d) == EnrichRow(ParseRow(line, d), g, c, desc, m).0
  {
    var row := ParseRow(line, d);
    EnrichRowPlain(row, d, g, c, desc, m);
    RowRoundTrip(EnrichRow(row, g, c, desc, m).0, d);
  }

  /** What is written for a line is exactly one line, ending in "\n". */
  lemma EnrichLineIsLine(line: string, d: Dialect, g: Gate, c: PriceCols, desc: Option<nat>, m: map<string, real>)
    requires ValidDialect(d)
    ensures IsLine(EnrichLine(d, g, c, desc, m)(line).0)
    ensures EndsInNewline(EnrichLine(d, g, c, desc, m)(line).0)
  {
    var row := ParseRow(line, d);
    EnrichRowPlain(row, d, g, c, desc, m);
    SerializedIsLine(EnrichRow(row, g, c, desc, m).0, d);
  }

  // ------------------------------------------------------------ counting

  /** A body line that gets priced: eligible, with a non-empty code the map knows. */
  predicate PricedLine(line: string, d: Dialect, g: Gate, c: PriceCols, m: map<string, real>) {
    var row := ParseRow(line, d);
    Eligible(row, g) && ItemCode(row, c.item) != "" && ItemCode(row, c.item) in m
  }

  function PricedBy(d: Dialect, g: Gate, c: PriceCols, m: map<string, real>): string -> bool {
    line => PricedLine(line, d, g, c, m)
  }

  /** The flag the step raises for a line is exactly whether the line gets priced. */
  lemma EnrichLineFlag(line: string, d: Dialect, g: Gate, c: PriceCols, desc: Option<nat>, m: map<string, real>)
    requires desc.None? || desc.value != c.item
    ensures EnrichLine(d, g, c, desc, m)(line).1 == PricedLine(line, d, g, c, m)
  {
    var row := ParseRow(line, d);
    RewriteRowFlag(row, g, c, desc, m, CleanDesc, Fmt2, Total);
    assert EnrichLine(d, g, c, desc, m)(line).1 == EnrichRow(row, g, c, desc, m).1;
  }

  lemma RewriteRowFlag(row: seq<string>, g: Gate, c: PriceCols, desc: Option<nat>, m: map<string, real>,
                       clean: string -> string, unit: real -> string, total: (real, string) -> string)
    requires desc.None? || desc.value != c.item
    ensures RewriteRow(row, g, c, desc, m, clean, unit, total).1
        <==> Eligible(row, g) && ItemCode(row, c.item) != "" && ItemCode(row, c.item) in m
  {
    var r := MapField(row, desc, clean);
    assert FieldOr(r, c.item) == FieldOr(row, c.item);
  }

  /** `updated` counts exactly the priced lines. */
  lemma FlaggedCount(body: seq<string>, d: Dialect, g: Gate, c: PriceCols, desc: Option<nat>, m: map<string, real>)
    requires desc.None? || desc.value != c.item
    ensures Flagged(body, EnrichLine(d, g, c, desc, m)) == |Filter(body, PricedBy(d, g, c, m))|
    decreases |body|
  {
    forall l ensures EnrichLine(d, g, c, desc, m)(l).1 == PricedBy(d, g, c, m)(l) {
      EnrichLineFlag(l, d, g, c, desc, m);
    }
    FlaggedFilter(body, EnrichLine(d, g, c, desc, m), PricedBy(d, g, c, m));
  }

  /** A step flags exactly the lines a predicate keeps: it flags as many lines as the predicate keeps. */
  lemma {:induction false} FlaggedFilter(body: seq<string>, f: string -> (string, bool), p: string -> bool)
    requires forall l :: f(l).1 == p(l)
    ensures Flagged(body, f) == |Filter(body, p)|
    decreases |body|
  {
    if |body| > 0 {
      FlaggedFilter(body[..|body| - 1], f, p);
    }
  }
}
