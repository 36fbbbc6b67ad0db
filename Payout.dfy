/**
 * Payout.py: search Gmail for the payout reports of the configured senders,
 * collect the text of each message, pull the Google Sheets links out of it
 * and save every sheet that exports as CSV under a consecutive number. The
 * Gmail and Drive calls are parameters: the message payloads found by the
 * search, the base64 decoder and the export of a sheet (None when it
 * raises).
 */
module Payout {
  import opened Wrappers
  import opened Strings
  import opened Files

  // ---------------------------------------------------------------- query

  /** `SENDERS`, `SUBJECT_EQUALS` and `DAYS_LOOKBACK`. */
  const Senders: seq<string> := ["priyapornp@mizuhada.com", "nathapats@mizuhada.com"]
  const SubjectEquals: string := "Report Payout"
  const DaysLookback: nat := 30

  /** `" OR ".join(f"from:{s}" for s in senders)`. */
  function FromClause(senders: seq<string>): string {
    Join(seq(|senders|, i requires 0 <= i < |senders| => "from:" + senders[i]), " OR ")
  }

  /** The Gmail search of `build_gmail_query` for the given configuration. */
  function Query(senders: seq<string>, subject: string, days: nat): string {
    "(" + FromClause(senders) + ") subject:\"" + subject + "\" has:drive newer_than:" + NatToStr(days) + "d"
  }

  /** `build_gmail_query()`. */
  function BuildGmailQuery(): string {
    Query(Senders, SubjectEquals, DaysLookback)
  }

  /** Joining one more piece puts it after the separator, at the end. */
  lemma {:induction false} JoinAppend(parts: seq<string>, sep: string, x: string)
    requires |parts| > 0
    ensures Join(parts + [x], sep) == Join(parts, sep) + sep + x
    decreases |parts|
  {
    if |parts| == 1 {
      assert (parts + [x])[1..] == [x];
    } else {
      assert (parts + [x])[1..] == parts[1..] + [x];
      JoinAppend(parts[1..], sep, x);
    }
  }

  /**
   * The senders are or-ed in list order: one more sender adds its
   * `from:` term after all the others.
   */
  lemma FromClauseAppend(senders: seq<string>, s: string)
    ensures FromClause([s]) == "from:" + s
    ensures |senders| > 0 ==> FromClause(senders + [s]) == FromClause(senders) + " OR from:" + s
  {
    var terms := seq(|senders|, i requires 0 <= i < |senders| => "from:" + senders[i]);
    var terms' := seq(|senders + [s]|, i requires 0 <= i < |senders + [s]| => "from:" + (senders + [s])[i]);
    assert terms' == terms + ["from:" + s];
    if |senders| > 0 {
      JoinAppend(terms, " OR ", "from:" + s);
    }
  }

  /** The query the script sends: both senders in list order, the exact subject, a 30-day window. */
  lemma BuildGmailQueryValue()
    ensures FromClause(Senders) == "from:" + Senders[0] + " OR from:" + Senders[1]
    ensures BuildGmailQuery() == "(" + FromClause(Senders) + ") subject:\"" + SubjectEquals + "\" has:drive newer_than:30d"
  {
    FromClauseAppend([], Senders[0]);
    FromClauseAppend([Senders[0]], Senders[1]);
    assert [Senders[0]] + [Senders[1]] == Senders;
    assert NatToStr(30) == "30" by {
      assert NatToStr(3) == "3";
      assert DigitChar(0) == '0';
    }
    assert "\" has:drive newer_than:" + "30" + "d" == "\" has:drive newer_than:30d";
  }

  // ------------------------------------------------------- sheet links

  /** The two spellings of the link prefix that `https?://docs\.google\.com/spreadsheets/d/` accepts. */
  const HttpsPrefix: string := "https://docs.google.com/spreadsheets/d/"
  const HttpPrefix: string := "http://docs.google.com/spreadsheets/d/"

  /** `[a-zA-Z0-9-_]`. */
  predicate IsIdChar(c: char) { IsAsciiLetter(c) || IsDigit(c) || c == '-' || c == '_' }

  /** The length of the link prefix at position `i`, 0 when there is none. */
  function PrefixLen(s: string, i: nat): (n: nat)
    ensures n == 0 || (n == |HttpsPrefix| && OccursAt(s, HttpsPrefix, i)) || (n == |HttpPrefix| && OccursAt(s, HttpPrefix, i))
  {
    if OccursAt(s, HttpsPrefix, i) then |HttpsPrefix|
    else if OccursAt(s, HttpPrefix, i) then |HttpPrefix|
    else 0
  }

  /** The length of the run of id characters starting at `i`: `+` is greedy. */
  function RunLength(s: string, i: nat): (n: nat)
    requires i <= |s|
    ensures i + n <= |s|
    ensures forall k :: i <= k < i + n ==> IsIdChar(s[k])
    ensures i + n == |s| || !IsIdChar(s[i + n])
    decreases |s| - i
  {
    if i < |s| && IsIdChar(s[i]) then 1 + RunLength(s, i + 1) else 0
  }

  /**
   * `id` is the group of a match whose id starts at `start`: the link
   * prefix ends there and `id` is the whole run of id characters after it.
   */
  predicate IdMatchAt(s: string, start: nat, id: string) {
    && start + |id| <= |s| && |id| > 0 && s[start..start + |id|] == id
    && (forall k :: start <= k < start + |id| ==> IsIdChar(s[k]))
    && (start + |id| == |s| || !IsIdChar(s[start + |id|]))
    && (OccursAt(s, HttpsPrefix, start - |HttpsPrefix|) || OccursAt(s, HttpPrefix, start - |HttpPrefix|))
  }

  /** `id` is the group of some match in `s`. */
  ghost predicate IsMatched(s: string, id: string) {
    exists start :: IdMatchAt(s, start, id)
  }

  /** The length of the id matched at `i`: the run after a link prefix, 0 when there is no match. */
  function MatchLen(s: string, i: nat): (n: nat)
    requires i <= |s|
    ensures n > 0 ==> PrefixLen(s, i) > 0 && i + PrefixLen(s, i) + n <= |s|
  {
    var p := PrefixLen(s, i);
    if p > 0 then RunLength(s, i + p) else 0
  }

  /**
   * `re.findall(pat, s[i:])`: from each position, a link prefix followed by
   * at least one id character is a match and the scan resumes after it;
   * otherwise the scan moves on by one character.
   */
  function FindIds(s: string, i: nat): seq<string>
    requires i <= |s|
    decreases |s| - i
  {
    if i == |s| then []
    else if MatchLen(s, i) > 0 then
      [s[i + PrefixLen(s, i)..i + PrefixLen(s, i) + MatchLen(s, i)]] + FindIds(s, i + PrefixLen(s, i) + MatchLen(s, i))
    else FindIds(s, i + 1)
  }

  /** Every id found is the maximal run of id characters right after a link prefix. */
  lemma FindIdsSound(s: string, i: nat)
    requires i <= |s|
    ensures forall id :: id in FindIds(s, i) ==> IsMatched(s, id)
  {
    forall id | id in FindIds(s, i) ensures IsMatched(s, id) {
      FoundIsMatched(s, i, id);
    }
  }

  /** One id found from position `i` on is the group of a match. */
  lemma {:induction false} FoundIsMatched(s: string, i: nat, id: string)
    requires i <= |s| && id in FindIds(s, i)
    ensures IsMatched(s, id)
    decreases |s| - i
  {
    assert i < |s|;
    var p, n := PrefixLen(s, i), MatchLen(s, i);
    if n > 0 {
      var rest := FindIds(s, i + p + n);
      assert FindIds(s, i) == [s[i + p..i + p + n]] + rest;
      if id == s[i + p..i + p + n] {
        MatchHere(s, i);
      } else {
        assert id in rest;
        FoundIsMatched(s, i + p + n, id);
      }
    } else {
      assert FindIds(s, i) == FindIds(s, i + 1);
      FoundIsMatched(s, i + 1, id);
    }
  }

  /** A match found at `i` satisfies `IdMatchAt`. */
  lemma MatchHere(s: string, i: nat)
    requires i < |s| && MatchLen(s, i) > 0
    ensures var p := PrefixLen(s, i);
      IsMatched(s, s[i + p..i + p + MatchLen(s, i)])
  {
    var p := PrefixLen(s, i);
    assert IdMatchAt(s, i + p, s[i + p..i + p + MatchLen(s, i)]);
  }

  // ------------------------------------------------------ de-duplication

  /** The list with every element after its first occurrence dropped. */
  function Dedup(xs: seq<string>): seq<string>
    decreases |xs|
  {
    if |xs| == 0 then []
    else
      var init := xs[..|xs| - 1];
      if xs[|xs| - 1] in init then Dedup(init) else Dedup(init) + [xs[|xs| - 1]]
  }

  /** One more element is kept exactly when it has not been seen before. */
  lemma DedupStep(xs: seq<string>, k: nat)
    requires k < |xs|
    ensures Dedup(xs[..k + 1]) == if xs[k] in xs[..k] then Dedup(xs[..k]) else Dedup(xs[..k]) + [xs[k]]
    ensures forall x :: x in xs[..k + 1] <==> x in xs[..k] || x == xs[k]
  {
    assert xs[..k + 1][..k] == xs[..k];
    assert xs[..k + 1] == xs[..k] + [xs[k]];
  }

  /** The position of the first occurrence of `x`. */
  function FirstPos(xs: seq<string>, x: string): (r: nat)
    requires x in xs
    ensures r < |xs| && xs[r] == x && x !in xs[..r]
  {
    if xs[0] == x then 0
    else
      assert x in xs[1..];
      var r := 1 + FirstPos(xs[1..], x);
      assert xs[..r] == [xs[0]] + xs[1..][..r - 1];
      r
  }

  lemma FirstPosUnique(xs: seq<string>, x: string, r: nat)
    requires r < |xs| && xs[r] == x && x !in xs[..r]
    ensures FirstPos(xs, x) == r
  {
  }

  /** An element of `Dedup(xs)` is an element of `xs` and back. */
  lemma {:induction false} DedupMembers(xs: seq<string>)
    ensures forall x :: x in Dedup(xs) <==> x in xs
    decreases |xs|
  {
    if |xs| > 0 {
      var init := xs[..|xs| - 1];
      DedupMembers(init);
      assert xs == init + [xs[|xs| - 1]];
    }
  }

  /** `extract_gsheet_ids` returns no id twice. */
  lemma {:induction false} DedupDistinct(xs: seq<string>)
    ensures forall a, b :: 0 <= a < b < |Dedup(xs)| ==> Dedup(xs)[a] != Dedup(xs)[b]
    decreases |xs|
  {
    if |xs| > 0 {
      var init := xs[..|xs| - 1];
      DedupDistinct(init);
      DedupMembers(init);
    }
  }

  /** The ids come out in the order of their first appearance. */
  lemma {:induction false} DedupOrder(xs: seq<string>)
    ensures forall x :: x in Dedup(xs) ==> x in xs
    ensures forall a, b :: 0 <= a < b < |Dedup(xs)| ==> FirstPos(xs, Dedup(xs)[a]) < FirstPos(xs, Dedup(xs)[b])
    decreases |xs|
  {
    DedupMembers(xs);
    if |xs| > 0 {
      var init := xs[..|xs| - 1];
      var z := xs[|xs| - 1];
      assert xs == init + [z];
      DedupOrder(init);
      DedupMembers(init);
      var d := Dedup(init);
      forall y | y in init ensures FirstPos(xs, y) == FirstPos(init, y) < |init| {
        var r := FirstPos(init, y);
        assert xs[..r] == init[..r];
        FirstPosUnique(xs, y, r);
      }
      if z !in init {
        assert xs[..|init|] == init;
        FirstPosUnique(xs, z, |init|);
        assert Dedup(xs) == d + [z];
        forall a, b | 0 <= a < b < |Dedup(xs)| ensures FirstPos(xs, Dedup(xs)[a]) < FirstPos(xs, Dedup(xs)[b]) {
          assert Dedup(xs)[a] == d[a];
          assert d[a] in init;
          if b < |d| {
            assert Dedup(xs)[b] == d[b] && d[b] in init;
          }
        }
      } else {
        forall a, b | 0 <= a < b < |Dedup(xs)| ensures FirstPos(xs, Dedup(xs)[a]) < FirstPos(xs, Dedup(xs)[b]) {
          assert d[a] in init && d[b] in init;
        }
      }
    }
  }

  /** `extract_gsheet_ids(text)`, as a value. */
  function GsheetIds(text: string): seq<string> {
    Dedup(FindIds(text, 0))
  }

  /**
   * What `extract_gsheet_ids` returns: each matched id exactly once, each
   * one the id of a sheet link in the text, in order of first appearance.
   */
  lemma GsheetIdsSpec(text: string)
    ensures forall id :: id in GsheetIds(text) <==> id in FindIds(text, 0)
    ensures forall id :: id in GsheetIds(text) ==> IsMatched(text, id)
    ensures forall a, b :: 0 <= a < b < |GsheetIds(text)| ==> GsheetIds(text)[a] != GsheetIds(text)[b]
    ensures forall a, b :: 0 <= a < b < |GsheetIds(text)| ==>
      FirstPos(FindIds(text, 0), GsheetIds(text)[a]) < FirstPos(FindIds(text, 0), GsheetIds(text)[b])
  {
    var ids := FindIds(text, 0);
    DedupMembers(ids);
    DedupDistinct(ids);
    DedupOrder(ids);
    FindIdsSound(text, 0);
  }

  /** `extract_gsheet_ids`: the loop over the matches with its `seen` set. */
  method ExtractGsheetIds(text: string) returns (out: seq<string>)
    ensures out == GsheetIds(text)
  {
    var ids := FindIds(text, 0);
    var seen: set<string> := {};
    out := [];
    for k := 0 to |ids|
      invariant out == Dedup(ids[..k])
      invariant forall x :: x in seen <==> x in ids[..k]
    {
      DedupStep(ids, k);
      var fid := ids[k];
      if fid !in seen {
        out := out + [fid];
        seen := seen + {fid};
      }
    }
    assert ids[..|ids|] == ids;
  }

  // ------------------------------------------------------- message text

  /**
   * A MIME part of a Gmail message: its `body.data` (base64, "" when absent)
   * and its nested `parts`. The message payload has the same shape.
   */
  datatype Part = Part(data: string, parts: seq<Part>)

  /** The decoded data of a part, if its data is non-empty (`if data:`). */
  function Own(p: Part, decode: string -> string): seq<string> {
    if p.data != "" then [decode(p.data)] else []
  }

  /** What `add_part(p)` appends to `segments`. */
  function Segments(p: Part, decode: string -> string): seq<string>
    decreases p, 1
  {
    Own(p, decode) + SegmentsOf(p.parts, decode)
  }

  /** What `add_part` appends for each part of a list, in order. */
  function SegmentsOf(ps: seq<Part>, decode: string -> string): seq<string>
    decreases ps, 0
  {
    if |ps| == 0 then [] else SegmentsOf(ps[..|ps| - 1], decode) + Segments(ps[|ps| - 1], decode)
  }

  /** The parts of a tree, each before the parts nested in it. */
  function PreOrder(p: Part): seq<Part>
    decreases p, 1
  {
    [p] + PreOrderOf(p.parts)
  }

  function PreOrderOf(ps: seq<Part>): seq<Part>
    decreases ps, 0
  {
    if |ps| == 0 then [] else PreOrderOf(ps[..|ps| - 1]) + PreOrder(ps[|ps| - 1])
  }

  /** The decoded data of every part with data, in the order given. */
  function DataOf(ps: seq<Part>, decode: string -> string): seq<string>
    decreases |ps|
  {
    if |ps| == 0 then [] else DataOf(ps[..|ps| - 1], decode) + Own(ps[|ps| - 1], decode)
  }

  lemma {:induction false} DataOfAppend(a: seq<Part>, b: seq<Part>, decode: string -> string)
    ensures DataOf(a + b, decode) == DataOf(a, decode) + DataOf(b, decode)
    decreases |b|
  {
    if |b| > 0 {
      var b0 := b[..|b| - 1];
      assert (a + b)[..|a + b| - 1] == a + b0;
      DataOfAppend(a, b0, decode);
    } else {
      assert a + b == a;
    }
  }

  /**
   * `add_part` visits a part's own data before its nested parts, at every
   * depth: the segments are the data of the tree's parts in pre-order.
   */
  lemma {:induction false} SegmentsPreOrder(p: Part, decode: string -> string)
    ensures Segments(p, decode) == DataOf(PreOrder(p), decode)
    decreases p, 1
  {
    SegmentsOfPreOrder(p.parts, decode);
    DataOfAppend([p], PreOrderOf(p.parts), decode);
    assert DataOf([p], decode) == Own(p, decode) by {
      assert [p][..0] == [];
    }
  }

  lemma {:induction false} SegmentsOfPreOrder(ps: seq<Part>, decode: string -> string)
    ensures SegmentsOf(ps, decode) == DataOf(PreOrderOf(ps), decode)
    decreases ps, 0
  {
    if |ps| > 0 {
      var init, last := ps[..|ps| - 1], ps[|ps| - 1];
      SegmentsOfPreOrder(init, decode);
      SegmentsPreOrder(last, decode);
      DataOfAppend(PreOrderOf(init), PreOrder(last), decode);
    }
  }

  /** `add_part(part)`, appending to `segments` as the closure does. */
  method AddPart(part: Part, decode: string -> string, segments: seq<string>) returns (r: seq<string>)
    ensures r == segments + Segments(part, decode)
    decreases part
  {
    r := segments + (if part.data != "" then [decode(part.data)] else []);
    ghost var start := r;
    for k := 0 to |part.parts|
      invariant r == start + SegmentsOf(part.parts[..k], decode)
    {
      SegmentsOfStep(part.parts, k, decode);
      AppendAssoc(start, SegmentsOf(part.parts[..k], decode), Segments(part.parts[k], decode));
      r := AddPart(part.parts[k], decode, r);
    }
    assert part.parts[..|part.parts|] == part.parts;
  }

  lemma AppendAssoc(a: seq<string>, b: seq<string>, c: seq<string>)
    ensures a + b + c == a + (b + c)
  {
  }

  lemma SegmentsOfStep(ps: seq<Part>, k: nat, decode: string -> string)
    requires k < |ps|
    ensures SegmentsOf(ps[..k + 1], decode) == SegmentsOf(ps[..k], decode) + Segments(ps[k], decode)
  {
    assert ps[..k + 1][..k] == ps[..k];
  }

  /**
   * `gmail_get_body_text` on a fetched payload: the segments of its parts
   * when it has any, else its own decoded body, joined with newlines.
   */
  function BodyText(payload: Part, decode: string -> string): string {
    Join(if |payload.parts| > 0 then SegmentsOf(payload.parts, decode) else Own(payload, decode), "\n")
  }

  /**
   * The payload's own body is read only when it has no parts; with parts,
   * the text is that of the parts in pre-order.
   */
  lemma BodyTextSources(payload: Part, decode: string -> string)
    ensures |payload.parts| > 0 ==>
      BodyText(payload, decode) == Join(DataOf(PreOrderOf(payload.parts), decode), "\n")
      && forall data :: BodyText(Part(data, payload.parts), decode) == BodyText(payload, decode)
    ensures |payload.parts| == 0 ==> BodyText(payload, decode) == if payload.data != "" then decode(payload.data) else ""
  {
    SegmentsOfPreOrder(payload.parts, decode);
  }

  /** `gmail_get_body_text`, after the message is fetched. */
  method GetBodyText(payload: Part, decode: string -> string) returns (text: string)
    ensures text == BodyText(payload, decode)
  {
    var segments: seq<string> := [];
    if |payload.parts| > 0 {
      for k := 0 to |payload.parts|
        invariant segments == SegmentsOf(payload.parts[..k], decode)
      {
        SegmentsOfStep(payload.parts, k, decode);
        segments := AddPart(payload.parts[k], decode, segments);
      }
      assert payload.parts[..|payload.parts|] == payload.parts;
    } else if payload.data != "" {
      segments := segments + [decode(payload.data)];
    }
    text := Join(segments, "\n");
  }

  // ------------------------------------------------------------ saving

  /** `LOCAL_SAVE_DIR`. */
  const SaveDir: string := "/Users/pianoxyz/Documents/Automation-main/PayOut"

  /** `TXT_FILENAME_FMT.format(idx=idx, ts=ts)`, under `LOCAL_SAVE_DIR`. */
  function SheetPath(idx: nat, ts: string): string {
    SaveDir + "/sheet_" + Pad2(idx) + "_" + ts + ".txt"
  }

  /** Padding with a leading zero keeps the value: `f"{n:02d}"` reads back as `n`. */
  lemma Pad2Value(n: nat)
    ensures DigitsValue(Pad2(n)) == n
  {
    NatToStrValue(n);
    if n < 10 {
      var z := NatToStr(n);
      assert |z| == 1;
      assert Pad2(n)[..1] == "0";
    }
  }

  /** Two different indexes never name the same file, whatever the time stamp. */
  lemma SheetPathInjective(m: nat, n: nat, ts: string)
    requires SheetPath(m, ts) == SheetPath(n, ts)
    ensures m == n
  {
    SheetPathParts(m, ts);
    SheetPathParts(n, ts);
    Middle(SaveDir + "/sheet_", Pad2(m), Pad2(n), "_" + ts + ".txt");
    Pad2Value(m);
    Pad2Value(n);
  }

  lemma SheetPathParts(n: nat, ts: string)
    ensures SheetPath(n, ts) == (SaveDir + "/sheet_") + Pad2(n) + ("_" + ts + ".txt")
    ensures |Pad2(n)| == |SheetPath(n, ts)| - |SaveDir + "/sheet_"| - |"_" + ts + ".txt"|
  {
  }

  lemma Middle(a: string, x: string, y: string, b: string)
    requires a + x + b == a + y + b && |x| == |y|
    ensures x == y
  {
    assert x == (a + x + b)[|a|..|a| + |x|];
    assert y == (a + y + b)[|a|..|a| + |y|];
  }

  /** The texts of the sheets whose export succeeds, in the order of `ids`. */
  function ExportedOf(ids: seq<string>, exportCsv: string -> Option<string>): seq<string>
    decreases |ids|
  {
    if |ids| == 0 then []
    else
      var last := exportCsv(ids[|ids| - 1]);
      ExportedOf(ids[..|ids| - 1], exportCsv) + (if last.Some? then [last.value] else [])
  }

  /** The texts saved for the messages, message after message. */
  function Exported(payloads: seq<Part>, decode: string -> string, exportCsv: string -> Option<string>): seq<string>
    decreases |payloads|
  {
    if |payloads| == 0 then []
    else
      Exported(payloads[..|payloads| - 1], decode, exportCsv)
        + ExportedOf(GsheetIds(BodyText(payloads[|payloads| - 1], decode)), exportCsv)
  }

  /** The files after saving `texts` as sheets 1, 2, … */
  function Saved(files: map<string, string>, ts: string, texts: seq<string>): map<string, string>
    decreases |texts|
  {
    if |texts| == 0 then files
    else Saved(files, ts, texts[..|texts| - 1])[SheetPath(|texts|, ts) := texts[|texts| - 1]]
  }

  /**
   * Sheet `k` holds the `k`-th text saved: numbering starts at 01 and
   * has no gaps, and no save overwrites an earlier one of the same run. Any
   * other file is left as it was.
   */
  lemma SavedSheets(files: map<string, string>, ts: string, texts: seq<string>)
    ensures forall k :: 1 <= k <= |texts| ==> SheetPath(k, ts) in Saved(files, ts, texts) && Saved(files, ts, texts)[SheetPath(k, ts)] == texts[k - 1]
    ensures forall p :: p in files && (forall k :: 1 <= k <= |texts| ==> p != SheetPath(k, ts)) ==>
      p in Saved(files, ts, texts) && Saved(files, ts, texts)[p] == files[p]
    ensures forall p :: p in Saved(files, ts, texts) ==> p in files || exists k :: 1 <= k <= |texts| && p == SheetPath(k, ts)
  {
    forall k | 1 <= k <= |texts|
      ensures SheetPath(k, ts) in Saved(files, ts, texts) && Saved(files, ts, texts)[SheetPath(k, ts)] == texts[k - 1]
    {
      SavedAt(files, ts, texts, k);
    }
    forall p | p in files && (forall k :: 1 <= k <= |texts| ==> p != SheetPath(k, ts))
      ensures p in Saved(files, ts, texts) && Saved(files, ts, texts)[p] == files[p]
    {
      SavedKeeps(files, ts, texts, p);
    }
    forall p | p in Saved(files, ts, texts) ensures p in files || exists k :: 1 <= k <= |texts| && p == SheetPath(k, ts) {
      SavedOnly(files, ts, texts, p);
    }
  }

  /** Sheet `k` holds the `k`-th text: no later save has the same name. */
  lemma {:induction false} SavedAt(files: map<string, string>, ts: string, texts: seq<string>, k: nat)
    requires 1 <= k <= |texts|
    ensures SheetPath(k, ts) in Saved(files, ts, texts) && Saved(files, ts, texts)[SheetPath(k, ts)] == texts[k - 1]
    decreases |texts|
  {
    var init := texts[..|texts| - 1];
    if k < |texts| {
      if SheetPath(k, ts) == SheetPath(|texts|, ts) {
        SheetPathInjective(k, |texts|, ts);
      }
      SavedAt(files, ts, init, k);
      assert init[k - 1] == texts[k - 1];
    }
  }

  /** A file that is none of the sheets keeps its text. */
  lemma {:induction false} SavedKeeps(files: map<string, string>, ts: string, texts: seq<string>, p: string)
    requires p in files && forall k :: 1 <= k <= |texts| ==> p != SheetPath(k, ts)
    ensures p in Saved(files, ts, texts) && Saved(files, ts, texts)[p] == files[p]
    decreases |texts|
  {
    if |texts| > 0 {
      assert p != SheetPath(|texts|, ts);
      SavedKeeps(files, ts, texts[..|texts| - 1], p);
    }
  }

  /** Every file after the saves was there before or is one of the sheets. */
  lemma {:induction false} SavedOnly(files: map<string, string>, ts: string, texts: seq<string>, p: string)
    requires p in Saved(files, ts, texts)
    ensures p in files || exists k :: 1 <= k <= |texts| && p == SheetPath(k, ts)
    decreases |texts|
  {
    if |texts| > 0 && p != SheetPath(|texts|, ts) {
      SavedOnly(files, ts, texts[..|texts| - 1], p);
    }
  }

  /** `main` from the search on: every sheet linked from a message, exported and saved under the next number. */
  method SaveSheets(fs: FileStore, payloads: seq<Part>, decode: string -> string, exportCsv: string -> Option<string>, ts: string)
    returns (saved: nat)
    requires fs.Valid()
    modifies fs
    ensures fs.Valid()
    ensures saved == |Exported(payloads, decode, exportCsv)|
    ensures fs.files == Saved(old(fs.files), ts, Exported(payloads, decode, exportCsv))
  {
    if |payloads| == 0 {
      return 0;
    }
    ghost var files0 := fs.files;
    var idx := 0;
    ghost var done: seq<string> := [];
    for m := 0 to |payloads|
      invariant fs.Valid()
      invariant done == Exported(payloads[..m], decode, exportCsv)
      invariant idx == |done| && fs.files == Saved(files0, ts, done)
    {
      var body := GetBodyText(payloads[m], decode);
      var fileIds := ExtractGsheetIds(body);
      ExportedMessageStep(payloads, m, decode, exportCsv);
      idx, done := SaveMessageSheets(fs, fileIds, exportCsv, ts, files0, done, idx);
    }
    assert payloads[..|payloads|] == payloads;
    saved := idx;
  }

  /** The inner loop of `main`: each sheet linked from one message, exported and saved under the next number. */
  method SaveMessageSheets(fs: FileStore, fileIds: seq<string>, exportCsv: string -> Option<string>, ts: string,
                           ghost files0: map<string, string>, ghost done: seq<string>, idx: nat)
    returns (idx': nat, ghost done': seq<string>)
    requires fs.Valid() && idx == |done| && fs.files == Saved(files0, ts, done)
    modifies fs
    ensures fs.Valid()
    ensures done' == done + ExportedOf(fileIds, exportCsv)
    ensures idx' == |done'| && fs.files == Saved(files0, ts, done')
  {
    idx', done' := idx, done;
    for j := 0 to |fileIds|
      invariant fs.Valid()
      invariant done' == done + ExportedOf(fileIds[..j], exportCsv)
      invariant idx' == |done'| && fs.files == Saved(files0, ts, done')
    {
      var csv := exportCsv(fileIds[j]);
      ExportedStep(done, fileIds, j, exportCsv);
      if csv.Some? {
        SavedStep(files0, ts, done', csv.value);
        idx' := idx' + 1;
        fs.Write(SheetPath(idx', ts), csv.value);
        done' := done' + [csv.value];
      }
    }
    assert fileIds[..|fileIds|] == fileIds;
  }

  lemma ExportedMessageStep(payloads: seq<Part>, m: nat, decode: string -> string, exportCsv: string -> Option<string>)
    requires m < |payloads|
    ensures Exported(payloads[..m + 1], decode, exportCsv) ==
      Exported(payloads[..m], decode, exportCsv) + ExportedOf(GsheetIds(BodyText(payloads[m], decode)), exportCsv)
  {
    assert payloads[..m + 1][..m] == payloads[..m];
  }

  lemma ExportedStep(start: seq<string>, ids: seq<string>, j: nat, exportCsv: string -> Option<string>)
    requires j < |ids|
    ensures start + ExportedOf(ids[..j + 1], exportCsv) ==
      (start + ExportedOf(ids[..j], exportCsv)) + (if exportCsv(ids[j]).Some? then [exportCsv(ids[j]).value] else [])
  {
    assert ids[..j + 1][..j] == ids[..j];
  }

  lemma SavedStep(files: map<string, string>, ts: string, texts: seq<string>, t: string)
    ensures Saved(files, ts, texts + [t]) == Saved(files, ts, texts)[SheetPath(|texts| + 1, ts) := t]
  {
    assert (texts + [t])[..|texts|] == texts;
  }
}
