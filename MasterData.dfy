/**
 * `load_msrp_map` over a CSV master file: the header names and the rows
 * as `csv.DictReader` delivers them, folded into a map from product code
 * to MSRP. Text decoding and the Excel branch are outside this model.
 */
module MasterData {
  import opened Wrappers
  import opened Strings
  import opened Numbers

  /** What `csv.DictReader` yields: the header names and one map per record. */
  datatype CsvTable = CsvTable(fieldnames: seq<string>, rows: seq<map<string, string>>)

  /** `row.get(col)`: a short record simply lacks the key. */
  function Get(row: map<string, string>, col: string): Option<string> {
    if col in row then Some(row[col]) else None
  }

  /** The code a record contributes: trimmed and upper-cased, "" when absent. */
  function RowCode(row: map<string, string>, codeCol: string): string {
    Upper(Strip(Get(row, codeCol).GetOr("")))
  }

  /** The MSRP a record contributes, when it parses. */
  function RowPrice(row: map<string, string>, msrpCol: string): Option<real> {
    ParseFloat(Get(row, msrpCol))
  }

  /** The entry a record contributes: its code and MSRP, when the code is non-empty and the MSRP parses. */
  function Entry(row: map<string, string>, codeCol: string, msrpCol: string): (e: Option<(string, real)>)
    ensures e.Some? ==> e.value.0 != ""
  {
    var code := RowCode(row, codeCol);
    var msrp := RowPrice(row, msrpCol);
    if code != "" && msrp.Some? then Some((code, msrp.value)) else None
  }

  function Entries(rows: seq<map<string, string>>, codeCol: string, msrpCol: string): (es: seq<Option<(string, real)>>)
    ensures |es| == |rows|
    ensures forall i :: 0 <= i < |rows| ==> es[i] == Entry(rows[i], codeCol, msrpCol)
  {
    seq(|rows|, i requires 0 <= i < |rows| => Entry(rows[i], codeCol, msrpCol))
  }

  /** Folding entries into a dictionary, each assignment overwriting earlier ones. */
  function Fold(es: seq<Option<(string, real)>>): map<string, real>
    decreases |es|
  {
    if |es| == 0 then map[]
    else
      var m := Fold(es[..|es| - 1]);
      match es[|es| - 1]
      case None => m
      case Some(e) => m[e.0 := e.1]
  }

  /** The map `load_msrp_map` builds from the records. */
  function MsrpMap(rows: seq<map<string, string>>, codeCol: string, msrpCol: string): map<string, real> {
    Fold(Entries(rows, codeCol, msrpCol))
  }

  /** Entry `e` assigns `code`. */
  predicate Assigns(e: Option<(string, real)>, code: string) {
    e.Some? && e.value.0 == code
  }

  /** A code is a key exactly when some entry assigns it. */
  lemma {:induction false} FoldKeys(es: seq<Option<(string, real)>>, code: string)
    ensures code in Fold(es) <==> exists i :: 0 <= i < |es| && Assigns(es[i], code)
    decreases |es|
  {
    if |es| > 0 {
      var init := es[..|es| - 1];
      FoldKeys(init, code);
      if exists i :: 0 <= i < |init| && Assigns(init[i], code) {
        var i :| 0 <= i < |init| && Assigns(init[i], code);
        assert es[i] == init[i];
      }
      if exists i :: 0 <= i < |es| && Assigns(es[i], code) {
        var i :| 0 <= i < |es| && Assigns(es[i], code);
        if i < |init| {
          assert init[i] == es[i];
        }
      }
    }
  }

  /** The value kept for a code is the one of the last entry assigning it. */
  lemma {:induction false} FoldLastWins(es: seq<Option<(string, real)>>, code: string, i: nat)
    requires i < |es| && Assigns(es[i], code)
    requires forall j :: i < j < |es| ==> !Assigns(es[j], code)
    ensures code in Fold(es) && Fold(es)[code] == es[i].value.1
    decreases |es|
  {
    var init := es[..|es| - 1];
    if i < |init| {
      assert init[i] == es[i];
      assert forall j :: i < j < |init| ==> init[j] == es[j];
      FoldLastWins(init, code, i);
      assert !Assigns(es[|es| - 1], code);
    }
  }

  /** No key is the empty code. */
  lemma MsrpMapNoEmptyKey(rows: seq<map<string, string>>, codeCol: string, msrpCol: string)
    ensures "" !in MsrpMap(rows, codeCol, msrpCol)
  {
    var es := Entries(rows, codeCol, msrpCol);
    FoldKeys(es, "");
  }

  /** A code is a key exactly when some record has that code and a parsable MSRP. */
  lemma MsrpMapKeys(rows: seq<map<string, string>>, codeCol: string, msrpCol: string, code: string)
    ensures code in MsrpMap(rows, codeCol, msrpCol)
        <==> exists i :: 0 <= i < |rows| && Entry(rows[i], codeCol, msrpCol).Some? && RowCode(rows[i], codeCol) == code
  {
    var es := Entries(rows, codeCol, msrpCol);
    FoldKeys(es, code);
    forall i | 0 <= i < |rows|
      ensures Assigns(es[i], code) <==> Entry(rows[i], codeCol, msrpCol).Some? && RowCode(rows[i], codeCol) == code
    {
      AssignsEntry(rows[i], codeCol, msrpCol, code);
    }
  }

  /** A record's entry assigns a code exactly when the record has that code and a parsable MSRP. */
  lemma AssignsEntry(row: map<string, string>, codeCol: string, msrpCol: string, code: string)
    ensures Assigns(Entry(row, codeCol, msrpCol), code) <==> Entry(row, codeCol, msrpCol).Some? && RowCode(row, codeCol) == code
  {
  }

  /**
   * A code is in the map exactly when some record has it with a parsable
   * MSRP, and the MSRP kept is that of the last such record.
   */
  lemma MsrpMapLastWins(rows: seq<map<string, string>>, codeCol: string, msrpCol: string, i: nat)
    requires i < |rows| && Entry(rows[i], codeCol, msrpCol).Some?
    requires forall j :: i < j < |rows| ==>
      RowCode(rows[j], codeCol) != RowCode(rows[i], codeCol) || Entry(rows[j], codeCol, msrpCol).None?
    ensures RowCode(rows[i], codeCol) in MsrpMap(rows, codeCol, msrpCol)
    ensures MsrpMap(rows, codeCol, msrpCol)[RowCode(rows[i], codeCol)] == RowPrice(rows[i], msrpCol).value
  {
    var es := Entries(rows, codeCol, msrpCol);
    var code := RowCode(rows[i], codeCol);
    assert Assigns(es[i], code);
    forall j | i < j < |es| ensures !Assigns(es[j], code) {
      assert es[j] == Entry(rows[j], codeCol, msrpCol);
    }
    FoldLastWins(es, code, i);
  }

  /** The row loop of `load_msrp_map`. */
  method BuildMsrpMap(rows: seq<map<string, string>>, codeCol: string, msrpCol: string) returns (out: map<string, real>)
    ensures out == MsrpMap(rows, codeCol, msrpCol)
  {
    ghost var es := Entries(rows, codeCol, msrpCol);
    out := map[];
    var i := 0;
    while i < |rows|
      invariant 0 <= i <= |rows|
      invariant out == Fold(es[..i])
    {
      assert es[..i + 1][..i] == es[..i];
      var code := RowCode(rows[i], codeCol);
      var msrp := RowPrice(rows[i], msrpCol);
      if code != "" && msrp.Some? {
        out := out[code := msrp.value];
      }
      i := i + 1;
    }
    assert es[..i] == es;
  }

  /** How a header name is compared: trimmed and lower-cased, or only lower-cased. */
  function HeaderKey(c: string, trim: bool): string {
    if trim then Lower(Strip(c)) else Lower(c)
  }

  /**
   * `{key(c): c for c in fieldnames}.get(key)`: the header name with that key,
   * the last one when several have it.
   */
  function ColumnFor(names: seq<string>, key: string, trim: bool): (r: Option<string>)
    ensures r.Some? ==> exists k :: 0 <= k < |names| && names[k] == r.value && HeaderKey(names[k], trim) == key
    ensures r.None? ==> forall k :: 0 <= k < |names| ==> HeaderKey(names[k], trim) != key
  {
    match LastKeyBelow(names, key, trim, |names|)
    case None => None
    case Some(i) => Some(names[i])
  }

  function LastKeyBelow(names: seq<string>, key: string, trim: bool, n: nat): (r: Option<nat>)
    requires n <= |names|
    ensures r.Some? ==> r.value < n && HeaderKey(names[r.value], trim) == key
    ensures r.Some? ==> forall j :: r.value < j < n ==> HeaderKey(names[j], trim) != key
    ensures r.None? ==> forall j :: 0 <= j < n ==> HeaderKey(names[j], trim) != key
    decreases n
  {
    if n == 0 then None
    else if HeaderKey(names[n - 1], trim) == key then Some(n - 1)
    else LastKeyBelow(names, key, trim, n - 1)
  }

  /**
   * The master columns for the configured names, the header names compared
   * as `HeaderKey` says and the last one winning; None when either is
   * unresolved or is the empty name (`if not code_c or not msrp_c`).
   */
  function MasterCols(names: seq<string>, codeCol: string, msrpCol: string, trim: bool): (r: Option<(string, string)>)
    ensures r.Some? ==> r.value.0 in names && HeaderKey(r.value.0, trim) == Lower(codeCol) && r.value.0 != ""
    ensures r.Some? ==> r.value.1 in names && HeaderKey(r.value.1, trim) == Lower(msrpCol) && r.value.1 != ""
    ensures (forall k :: 0 <= k < |names| ==> HeaderKey(names[k], trim) != Lower(codeCol)) ==> r.None?
    ensures (forall k :: 0 <= k < |names| ==> HeaderKey(names[k], trim) != Lower(msrpCol)) ==> r.None?
  {
    var c := ColumnFor(names, Lower(codeCol), trim);
    var m := ColumnFor(names, Lower(msrpCol), trim);
    if c.None? || m.None? || c.value == "" || m.value == "" then None else Some((c.value, m.value))
  }
}
