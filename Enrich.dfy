/**
 * Price enrichment shared by the MSRP scripts: the description cleanup
 * that drops the "(แถม)" (free gift) annotation, and the overwrite of the
 * price fields of a row from a master price.
 */
module Enrich {
  import opened Wrappers
  import opened Strings
  import opened Numbers
  import opened Table

  /** The free-gift annotation "(แถม)". */
  const Marker: string := "(\U{E41}\U{E16}\U{E21})"

  /** The length of the whitespace run at the start of `s`. */
  function LeadWs(s: string): (n: nat)
    ensures n <= |s|
    ensures n < |s| ==> !IsSpace(s[n])
    ensures n > 0 ==> IsSpace(s[0])
    decreases |s|
  {
    if |s| > 0 && IsSpace(s[0]) then 1 + LeadWs(s[1..]) else 0
  }

  /**
   * The length of a match of `\s*\(แถม\)\s*` at the start of `s`, if any
   * (both runs of whitespace are taken whole, as the greedy pattern does).
   */
  function MarkerMatch(s: string): (m: Option<nat>)
    ensures m.Some? ==> 0 < m.value <= |s|
  {
    var w := LeadWs(s);
    if StartsWith(s[w..], Marker) then
      var e := w + |Marker|;
      Some(e + LeadWs(s[e..]))
    else None
  }

  /** `re.sub(r"\s*\(แถม\)\s*", " ", s)`: leftmost matches, scanning forward. */
  function RemoveMarker(s: string): string
    decreases |s|
  {
    if |s| == 0 then ""
    else match MarkerMatch(s)
      case Some(n) => " " + RemoveMarker(s[n..])
      case None => [s[0]] + RemoveMarker(s[1..])
  }

  /** `re.sub(r"\s{2,}", " ", s)`: a run of two or more whitespace characters becomes one space. */
  function CollapseWs(s: string): string
    decreases |s|
  {
    if |s| == 0 then ""
    else
      var w := LeadWs(s);
      if w >= 2 then " " + CollapseWs(s[w..]) else [s[0]] + CollapseWs(s[1..])
  }

  /** The description cleanup of both `apply_msrp_to_sap2_*` functions. */
  function CleanDesc(s: string): string {
    Strip(CollapseWs(RemoveMarker(s)))
  }

  predicate MarkerFree(s: string) {
    forall i :: 0 <= i <= |s| ==> !OccursAt(s, Marker, i)
  }

  predicate NoDoubleSpace(s: string) {
    forall i :: 0 <= i < |s| - 1 ==> !(IsSpace(s[i]) && IsSpace(s[i + 1]))
  }

  /** A prefix without a space that the removal shows was already in the input. */
  lemma {:induction false} RemoveMarkerPrefix(s: string, x: string)
    requires ' ' !in x && StartsWith(RemoveMarker(s), x)
    ensures StartsWith(s, x)
    decreases |x|
  {
    if |x| > 0 {
      assert RemoveMarker(s)[0] == x[0];
      assert MarkerMatch(s).None?;
      var t := RemoveMarker(s[1..]);
      assert RemoveMarker(s) == [s[0]] + t;
      assert StartsWith(t, x[1..]) by {
        assert t[..|x| - 1] == RemoveMarker(s)[1..|x|];
      }
      RemoveMarkerPrefix(s[1..], x[1..]);
      assert s[..|x|] == [s[0]] + s[1..][..|x| - 1];
    }
  }

  /** The same for the whitespace collapse. */
  lemma {:induction false} CollapseWsPrefix(s: string, x: string)
    requires ' ' !in x && StartsWith(CollapseWs(s), x)
    ensures StartsWith(s, x)
    decreases |x|
  {
    if |x| > 0 {
      assert CollapseWs(s)[0] == x[0];
      assert LeadWs(s) < 2;
      var t := CollapseWs(s[1..]);
      assert CollapseWs(s) == [s[0]] + t;
      assert StartsWith(t, x[1..]) by {
        assert t[..|x| - 1] == CollapseWs(s)[1..|x|];
      }
      CollapseWsPrefix(s[1..], x[1..]);
      assert s[..|x|] == [s[0]] + s[1..][..|x| - 1];
    }
  }

  lemma FreeNotAtStart(s: string)
    requires MarkerFree(s)
    ensures !StartsWith(s, Marker)
  {
    assert !OccursAt(s, Marker, 0);
  }

  /** An occurrence past the first character is an occurrence in the tail, and back. */
  lemma OccursInTail(c: char, t: string, i: int)
    requires 0 < i
    ensures OccursAt([c] + t, Marker, i) == OccursAt(t, Marker, i - 1)
  {
    if i + |Marker| <= |[c] + t| {
      assert ([c] + t)[i..i + |Marker|] == t[i - 1..i - 1 + |Marker|];
    }
  }

  /** Dropping a prefix keeps a text free of the annotation. */
  lemma MarkerFreeDrop(s: string, n: nat)
    requires n <= |s| && MarkerFree(s)
    ensures MarkerFree(s[n..])
  {
    forall i | 0 <= i <= |s[n..]| ensures !OccursAt(s[n..], Marker, i) {
      if i + |Marker| <= |s[n..]| {
        assert s[n..][i..i + |Marker|] == s[n + i..n + i + |Marker|];
        assert !OccursAt(s, Marker, n + i);
      }
    }
  }

  /** A text free of the annotation stays free when a character that does not start it is put in front. */
  lemma ConsFree(c: char, t: string)
    requires MarkerFree(t) && !StartsWith([c] + t, Marker)
    ensures MarkerFree([c] + t)
  {
    forall i | 0 <= i <= |[c] + t| ensures !OccursAt([c] + t, Marker, i) {
      if i == 0 {
        if |Marker| <= |[c] + t| {
          assert ([c] + t)[0..|Marker|] == ([c] + t)[..|Marker|];
        }
      } else {
        OccursInTail(c, t, i);
      }
    }
  }

  /** Where no match starts, the annotation does not start either. */
  lemma NoMatchNoMarker(s: string)
    requires |s| > 0 && MarkerMatch(s).None?
    ensures !StartsWith(s, Marker)
  {
    assert Marker[0] == '(';
    if LeadWs(s) > 0 {
      assert IsSpace(s[0]);
    }
  }

  /** No annotation survives the removal. */
  lemma {:induction false} RemoveMarkerFree(s: string)
    ensures MarkerFree(RemoveMarker(s))
    decreases |s|
  {
    if |s| > 0 {
      match MarkerMatch(s)
      case Some(n) =>
        var t := RemoveMarker(s[n..]);
        RemoveMarkerFree(s[n..]);
        assert Marker[0] == '(';
        assert RemoveMarker(s) == [' '] + t;
        ConsFree(' ', t);
      case None =>
        var t := RemoveMarker(s[1..]);
        RemoveMarkerFree(s[1..]);
        assert RemoveMarker(s) == [s[0]] + t;
        if StartsWith([s[0]] + t, Marker) {
          RemoveMarkerPrefix(s, Marker);
          NoMatchNoMarker(s);
        }
        ConsFree(s[0], t);
    }
  }

  /** Collapsing whitespace does not create an annotation. */
  lemma {:induction false} CollapseWsKeepsFree(s: string)
    requires MarkerFree(s)
    ensures MarkerFree(CollapseWs(s))
    decreases |s|
  {
    if |s| > 0 {
      var r := CollapseWs(s);
      var w := LeadWs(s);
      var n := if w >= 2 then w else 1;
      MarkerFreeDrop(s, n);
      CollapseWsKeepsFree(s[n..]);
      var c := if w >= 2 then ' ' else s[0];
      assert r == [c] + CollapseWs(s[n..]);
      assert Marker[0] == '(';
      if StartsWith(r, Marker) && w < 2 {
        FreeNotAtStart(s);
        CollapseWsPrefix(s, Marker);
      }
      ConsFree(c, CollapseWs(s[n..]));
    }
  }

  /** The collapse starts with whitespace exactly when its input does. */
  lemma CollapseWsHead(s: string)
    requires |s| > 0
    ensures |CollapseWs(s)| > 0 && (IsSpace(CollapseWs(s)[0]) <==> IsSpace(s[0]))
  {
  }

  /** After the collapse no two whitespace characters are adjacent. */
  lemma {:induction false} CollapseWsNoDouble(s: string)
    ensures NoDoubleSpace(CollapseWs(s))
    decreases |s|
  {
    if |s| > 0 {
      var w := LeadWs(s);
      var n := if w >= 2 then w else 1;
      var t := s[n..];
      var r := CollapseWs(s);
      CollapseWsNoDouble(t);
      assert r == [r[0]] + CollapseWs(t);
      if |t| > 0 {
        CollapseWsHead(t);
        if IsSpace(r[0]) {
          assert w >= 1;
          assert !IsSpace(t[0]);
        }
      }
      forall i | 0 <= i < |r| - 1 ensures !(IsSpace(r[i]) && IsSpace(r[i + 1])) {
        if i > 0 {
          assert r[i] == CollapseWs(t)[i - 1] && r[i + 1] == CollapseWs(t)[i];
        }
      }
    }
  }

  /** Stripping keeps a text free of the annotation. */
  lemma StripKeepsFree(c: string)
    requires MarkerFree(c)
    ensures MarkerFree(Strip(c))
  {
    var r := Strip(c);
    var o := StripOffset(c);
    StripSlice(c);
    forall i | 0 <= i <= |r| ensures !OccursAt(r, Marker, i) {
      if i + |Marker| <= |r| {
        assert r[i..i + |Marker|] == c[o + i..o + i + |Marker|] by {
          assert forall k :: 0 <= k < |r| ==> r[k] == c[o + k];
        }
        assert !OccursAt(c, Marker, o + i);
      }
    }
  }

  /** Stripping keeps a text free of doubled whitespace. */
  lemma StripKeepsNoDouble(c: string)
    requires NoDoubleSpace(c)
    ensures NoDoubleSpace(Strip(c))
  {
    var r := Strip(c);
    var o := StripOffset(c);
    StripSlice(c);
    forall i | 0 <= i < |r| - 1 ensures !(IsSpace(r[i]) && IsSpace(r[i + 1])) {
      assert r[i] == c[o + i] && r[i + 1] == c[o + i + 1];
    }
  }

  /** A cleaned description has no annotation, no doubled whitespace and no whitespace at either end. */
  lemma CleanDescProperties(s: string)
    ensures MarkerFree(CleanDesc(s))
    ensures NoDoubleSpace(CleanDesc(s))
    ensures CleanDesc(s) == [] || (!IsSpace(CleanDesc(s)[0]) && !IsSpace(CleanDesc(s)[|CleanDesc(s)| - 1]))
  {
    var m := RemoveMarker(s);
    RemoveMarkerFree(s);
    CollapseWsKeepsFree(m);
    CollapseWsNoDouble(m);
    StripKeepsFree(CollapseWs(m));
    StripKeepsNoDouble(CollapseWs(m));
  }

  /** Without an annotation there is nothing to remove. */
  lemma {:induction false} RemoveMarkerNoop(s: string)
    requires MarkerFree(s)
    ensures RemoveMarker(s) == s
    decreases |s|
  {
    if |s| > 0 {
      var w := LeadWs(s);
      if w + |Marker| <= |s| {
        assert s[w..][..|Marker|] == s[w..w + |Marker|];
        assert !OccursAt(s, Marker, w);
      }
      assert MarkerMatch(s).None?;
      MarkerFreeDrop(s, 1);
      RemoveMarkerNoop(s[1..]);
      assert s == [s[0]] + s[1..];
    }
  }

  /** Without doubled whitespace there is nothing to collapse. */
  lemma {:induction false} CollapseWsNoop(s: string)
    requires NoDoubleSpace(s)
    ensures CollapseWs(s) == s
    decreases |s|
  {
    if |s| > 0 {
      assert LeadWs(s) < 2;
      assert NoDoubleSpace(s[1..]) by {
        forall i | 0 <= i < |s[1..]| - 1 ensures !(IsSpace(s[1..][i]) && IsSpace(s[1..][i + 1])) {
          assert s[1..][i] == s[i + 1] && s[1..][i + 1] == s[i + 2];
        }
      }
      CollapseWsNoop(s[1..]);
    }
  }

  /** Cleaning a cleaned description changes nothing. */
  lemma CleanDescIdempotent(s: string)
    ensures CleanDesc(CleanDesc(s)) == CleanDesc(s)
  {
    var c := CleanDesc(s);
    CleanDescProperties(s);
    RemoveMarkerNoop(c);
    CollapseWsNoop(c);
    StripUnchanged(c);
  }

  /** A space or a character of `s`, followed by spaces and characters of a suffix of `s`. */
  lemma ConsChars(c: char, t: string, s: string, n: nat)
    requires n <= |s| && (c == ' ' || c in s)
    requires forall i :: 0 <= i < |t| ==> t[i] == ' ' || t[i] in s[n..]
    ensures forall i :: 0 <= i < |[c] + t| ==> ([c] + t)[i] == ' ' || ([c] + t)[i] in s
  {
    forall i | 0 <= i < |[c] + t| ensures ([c] + t)[i] == ' ' || ([c] + t)[i] in s {
      if i > 0 && t[i - 1] != ' ' {
        var j :| 0 <= j < |s[n..]| && s[n..][j] == t[i - 1];
        assert s[n + j] == t[i - 1];
      }
    }
  }

  /** Every character the removal leaves is a space or comes from the input. */
  lemma {:induction false} RemoveMarkerChars(s: string)
    ensures forall i :: 0 <= i < |RemoveMarker(s)| ==> RemoveMarker(s)[i] == ' ' || RemoveMarker(s)[i] in s
    decreases |s|
  {
    if |s| > 0 {
      var m := MarkerMatch(s);
      var n := if m.Some? then m.value else 1;
      var c := if m.Some? then ' ' else s[0];
      RemoveMarkerChars(s[n..]);
      assert RemoveMarker(s) == [c] + RemoveMarker(s[n..]);
      ConsChars(c, RemoveMarker(s[n..]), s, n);
    }
  }

  /** Every character the collapse leaves is a space or comes from the input. */
  lemma {:induction false} CollapseWsChars(s: string)
    ensures forall i :: 0 <= i < |CollapseWs(s)| ==> CollapseWs(s)[i] == ' ' || CollapseWs(s)[i] in s
    decreases |s|
  {
    if |s| > 0 {
      var w := LeadWs(s);
      var n := if w >= 2 then w else 1;
      var c := if w >= 2 then ' ' else s[0];
      CollapseWsChars(s[n..]);
      assert CollapseWs(s) == [c] + CollapseWs(s[n..]);
      ConsChars(c, CollapseWs(s[n..]), s, n);
    }
  }

  /** A cleaned field of the reader is still a field the reader could deliver. */
  lemma CleanDescPlain(s: string, d: Dialect)
    requires ValidDialect(d) && PlainField(s, d)
    ensures PlainField(CleanDesc(s), d)
  {
    var m := RemoveMarker(s);
    var c := CollapseWs(m);
    RemoveMarkerChars(s);
    CollapseWsChars(m);
    var r := Strip(c);
    var o := StripOffset(c);
    StripSlice(c);
    forall i | 0 <= i < |r| ensures r[i] != d.delimiter && r[i] != '\r' && r[i] != '\n' {
      assert r[i] == c[o + i];
    }
  }

  // -------------------------------------------------------------- pricing

  /** Where the pricing step reads the code and quantity and writes the prices. */
  datatype PriceCols = PriceCols(item: nat, gp: nat, price: nat, total: nat, qty: nat)

  /** The written columns differ from the columns read. */
  predicate ReadsApart(c: PriceCols) {
    c.item != c.gp && c.item != c.price && c.item != c.total
    && c.qty != c.gp && c.qty != c.price && c.qty != c.total
  }

  /** `row[i] if i < len(row) else ""`. */
  function FieldOr(row: seq<string>, i: nat): (f: string)
    ensures i < |row| ==> f == row[i]
    ensures i >= |row| ==> f == ""
  {
    if i < |row| then row[i] else ""
  }
  /**
   * `row[i] if i < len(row) else ""` on a parsed line is `get_field` on that
   * line with a missing field read as "", and on a written row of plain
   * fields it gives back the field written there.
   */
  lemma FieldOrOfLine(line: string, row: seq<string>, i: nat, d: Dialect)
    requires ValidDialect(d)
    requires forall k :: 0 <= k < |row| ==> PlainField(row[k], d)
    requires row != [""]
    ensures FieldOr(ParseRow(line, d), i) == match GetField(line, Some(i), d) case Some(f) => f case None => ""
    ensures FieldOr(ParseRow(Serialize(row, d), d), i) == if i < |row| then row[i] else ""
  {
    RowRoundTrip(row, d);
  }


  /** The master-map key of a row: its code field trimmed and upper-cased. */
  function ItemCode(row: seq<string>, item: nat): string {
    Upper(Strip(FieldOr(row, item)))
  }

  /** The quantity the total is computed from; 0 when it does not parse. */
  function Quantity(row: seq<string>, qty: nat): real {
    ParseFloat(Some(FieldOr(row, qty))).GetOr(0.0)
  }

  /** `if i < len(row): row[i] = v`. */
  function SetField(row: seq<string>, i: nat, v: string): (r: seq<string>)
    ensures |r| == |row|
    ensures forall j :: 0 <= j < |r| ==> r[j] == if j == i then v else row[j]
  {
    if i < |row| then row[i := v] else row
  }

  /**
   * The three writes of the pricing step: GPBefDisc and PriceAfVAT get
   * `unit`, GTotal gets `total`; each only when in range, the later write
   * winning if two positions coincide; every other field kept.
   */
  function WritePrices(row: seq<string>, c: PriceCols, unit: string, total: string): (r: seq<string>)
    ensures |r| == |row|
    ensures forall j :: 0 <= j < |row| ==>
      r[j] == (if j == c.total then total else if j == c.price || j == c.gp then unit else row[j])
  {
    SetField(SetField(SetField(row, c.gp, unit), c.price, unit), c.total, total)
  }

  /** `fmt2(msrp)` into GPBefDisc and PriceAfVAT, `fmt2(msrp * q)` into GTotal. */
  function PriceRow(row: seq<string>, c: PriceCols, msrp: real, q: real): seq<string> {
    WritePrices(row, c, Fmt2(msrp), Fmt2(msrp * q))
  }

  /** Writing the prices leaves the code and quantity fields in place. */
  lemma WritePricesKeepsReads(row: seq<string>, c: PriceCols, unit: string, total: string)
    requires ReadsApart(c)
    ensures FieldOr(WritePrices(row, c, unit, total), c.item) == FieldOr(row, c.item)
    ensures FieldOr(WritePrices(row, c, unit, total), c.qty) == FieldOr(row, c.qty)
  {
  }

  /** Pricing a priced row again with the same values changes nothing. */
  lemma PriceRowIdempotent(row: seq<string>, c: PriceCols, msrp: real, q: real)
    ensures PriceRow(PriceRow(row, c, msrp, q), c, msrp, q) == PriceRow(row, c, msrp, q)
  {
    WritePricesTwice(row, c, Fmt2(msrp), Fmt2(msrp * q));
  }

  lemma WritePricesTwice(row: seq<string>, c: PriceCols, unit: string, total: string)
    ensures WritePrices(WritePrices(row, c, unit, total), c, unit, total) == WritePrices(row, c, unit, total)
  {
  }

  /** What `fmt2` writes never holds a delimiter or a line break. */
  lemma Fmt2Plain(x: real, d: Dialect)
    requires ValidDialect(d)
    ensures PlainField(Fmt2(x), d) && Fmt2(x) != ""
  {
    var h := Hundredths(x);
    var w := NatToStr(h / 100);
    var c := [DigitChar(h % 100 / 10), DigitChar(h % 10)];
    var s := Fmt2(x);
    assert s == (if x < 0.0 then "-" else "") + (w + "." + c);
    Fmt2Chars(w, c, x < 0.0);
    assert forall i :: 0 <= i < |s| ==> s[i] != d.delimiter && s[i] != '\r' && s[i] != '\n';
  }

  /** A priced row of plain fields is still a row of plain fields. */
  lemma PriceRowPlain(row: seq<string>, c: PriceCols, msrp: real, q: real, d: Dialect)
    requires ValidDialect(d)
    requires forall k :: 0 <= k < |row| ==> PlainField(row[k], d)
    ensures forall k :: 0 <= k < |row| ==> PlainField(PriceRow(row, c, msrp, q)[k], d)
  {
    Fmt2Plain(msrp, d);
    Fmt2Plain(msrp * q, d);
    WritePricesPlain(row, c, Fmt2(msrp), Fmt2(msrp * q), d);
  }

  lemma WritePricesPlain(row: seq<string>, c: PriceCols, unit: string, total: string, d: Dialect)
    requires PlainField(unit, d) && PlainField(total, d)
    requires forall k :: 0 <= k < |row| ==> PlainField(row[k], d)
    ensures forall k :: 0 <= k < |row| ==> PlainField(WritePrices(row, c, unit, total)[k], d)
  {
  }
}
