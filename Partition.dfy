/**
 * The shared core of the sap1/sap2 scripts: splitting body lines on a
 * marker keyword while gathering DocNum values, and routing second-file
 * lines by whether their DocNum was gathered. The loops are the scripts'
 * loops; the functions beside them say what the loops compute.
 */
module Partition {
  import opened Wrappers
  import opened Strings
  import opened Table

  // ------------------------------------------------------- generic filters

  /** The elements satisfying `p`, in order. */
  function Filter<T>(s: seq<T>, p: T -> bool): (r: seq<T>)
    ensures |r| <= |s|
    ensures forall k :: 0 <= k < |r| ==> p(r[k])
    decreases |s|
  {
    if |s| == 0 then []
    else
      var init := Filter(s[..|s| - 1], p);
      if p(s[|s| - 1]) then init + [s[|s| - 1]] else init
  }

  /** The elements not satisfying `p`, in order. */
  function Reject<T>(s: seq<T>, p: T -> bool): (r: seq<T>)
    ensures |r| <= |s|
    ensures forall k :: 0 <= k < |r| ==> !p(r[k])
    decreases |s|
  {
    if |s| == 0 then []
    else
      var init := Reject(s[..|s| - 1], p);
      if p(s[|s| - 1]) then init else init + [s[|s| - 1]]
  }

  /** Filtering distributes over concatenation, so relative order is kept. */
  lemma {:induction false} FilterAppend<T>(a: seq<T>, b: seq<T>, p: T -> bool)
    ensures Filter(a + b, p) == Filter(a, p) + Filter(b, p)
    ensures Reject(a + b, p) == Reject(a, p) + Reject(b, p)
    decreases |b|
  {
    if |b| == 0 {
      assert a + b == a;
    } else {
      var b' := b[..|b| - 1];
      assert (a + b)[..|a + b| - 1] == a + b';
      assert (a + b)[|a + b| - 1] == b[|b| - 1];
      FilterAppend(a, b', p);
    }
  }

  /** The filter of one more element. */
  lemma FilterStep<T>(s: seq<T>, i: nat, p: T -> bool)
    requires i < |s|
    ensures Filter(s[..i + 1], p) == Filter(s[..i], p) + (if p(s[i]) then [s[i]] else [])
  {
    assert s[..i + 1][..i] == s[..i];
  }

  /** Every element lands on exactly one side. */
  lemma {:induction false} FilterRejectSplit<T>(s: seq<T>, p: T -> bool)
    ensures multiset(Filter(s, p)) + multiset(Reject(s, p)) == multiset(s)
    ensures |Filter(s, p)| + |Reject(s, p)| == |s|
    decreases |s|
  {
    if |s| > 0 {
      var init, x := s[..|s| - 1], s[|s| - 1];
      FilterRejectSplit(init, p);
      assert s == init + [x];
      assert multiset(s) == multiset(init) + multiset{x};
      if p(x) {
        assert multiset(Filter(s, p)) == multiset(Filter(init, p)) + multiset{x};
      } else {
        assert multiset(Reject(s, p)) == multiset(Reject(init, p)) + multiset{x};
      }
    }
  }

  /** An element is kept exactly when it is in the input and satisfies `p`. */
  lemma {:induction false} FilterMember<T>(s: seq<T>, p: T -> bool, x: T)
    ensures x in Filter(s, p) <==> x in s && p(x)
    ensures x in Reject(s, p) <==> x in s && !p(x)
    decreases |s|
  {
    if |s| > 0 {
      FilterMember(s[..|s| - 1], p, x);
      assert s == s[..|s| - 1] + [s[|s| - 1]];
    }
  }

  /** When no element satisfies `p`, nothing is kept and nothing is rejected. */
  lemma {:induction false} NoneSatisfy<T>(s: seq<T>, p: T -> bool)
    requires forall k :: 0 <= k < |s| ==> !p(s[k])
    ensures Filter(s, p) == [] && Reject(s, p) == s
    decreases |s|
  {
    if |s| > 0 {
      NoneSatisfy(s[..|s| - 1], p);
      assert s[..|s| - 1] + [s[|s| - 1]] == s;
    }
  }

  /** The negated test. */
  function Not<T>(p: T -> bool): T -> bool {
    y => !p(y)
  }

  /** What is rejected is what the negated test keeps. */
  lemma {:induction false} RejectAsFilter<T>(s: seq<T>, p: T -> bool)
    ensures Reject(s, p) == Filter(s, Not(p))
    decreases |s|
  {
    if |s| > 0 {
      RejectAsFilter(s[..|s| - 1], p);
    }
  }

  // ------------------------------------------------------ written output

  /** A line after lines that all end in "\n" keeps the sequence well formed. */
  lemma AppendLine(a: seq<string>, x: string)
    requires WellFormedLines(a) && IsLine(x)
    requires forall k :: 0 <= k < |a| ==> EndsInNewline(a[k])
    ensures WellFormedLines(a + [x])
  {
  }

  /** Keeping some body lines after the header keeps the lines well formed. */
  lemma {:induction false} FilterKeepsLines(h: seq<string>, s: seq<string>, p: string -> bool)
    requires WellFormedLines(h + s)
    ensures WellFormedLines(h + Filter(s, p))
    decreases |s|
  {
    if |s| == 0 {
      assert h + Filter(s, p) == h + s;
    } else {
      var s', x := s[..|s| - 1], s[|s| - 1];
      assert h + s == (h + s') + [x];
      assert WellFormedLines(h + s') by {
        forall k | 0 <= k < |h + s'| ensures (h + s')[k] == (h + s)[k] {
        }
      }
      FilterKeepsLines(h, s', p);
      var f := Filter(s', p);
      if p(x) {
        forall k | 0 <= k < |h + f| ensures EndsInNewline((h + f)[k]) {
          var y := (h + f)[k];
          if k < |h| {
            assert (h + s)[k] == y;
          } else {
            assert y in f;
            FilterMember(s', p, y);
            var j :| 0 <= j < |s'| && s'[j] == y;
            assert (h + s)[|h| + j] == y;
          }
        }
        assert IsLine((h + s)[|h + s| - 1]);
        AppendLine(h + f, x);
        assert h + Filter(s, p) == (h + f) + [x];
      } else {
        assert Filter(s, p) == f;
      }
    }
  }

  /**
   * Reading back a file written as the header followed by some of the body
   * lines, with the same header size, gives that header and those lines.
   */
  lemma ReadBack(text: string, n: nat, p: string -> bool)
    ensures var (head, body) := IterRows(text, n);
      IterRows(Concat(head) + Concat(Filter(body, p)), n) == (head, Filter(body, p))
  {
    var (head, body) := IterRows(text, n);
    var f := Filter(body, p);
    LinesWellFormed(text);
    FilterKeepsLines(head, body, p);
    ConcatAppend(head, f);
    LinesConcat(head + f);
    var ls := head + f;
    assert |f| > 0 ==> |body| > 0;
    assert ls[..|head|] == head && ls[|head|..] == f;
  }

  /** The same for the lines a test rejects. */
  lemma ReadBackRejected(text: string, n: nat, p: string -> bool)
    ensures var (head, body) := IterRows(text, n);
      IterRows(Concat(head) + Concat(Reject(body, p)), n) == (head, Reject(body, p))
  {
    var (head, body) := IterRows(text, n);
    RejectAsFilter(body, p);
    ReadBack(text, n, Not(p));
  }

  // ------------------------------------------------------- keyword split

  /** `tgt.count(kw)`, with both sides lower-cased when matching is case-insensitive. */
  function Occurrences(line: string, keyword: string, caseInsensitive: bool): nat {
    if caseInsensitive then Count(Lower(line), Lower(keyword)) else Count(line, keyword)
  }

  function HasKeyword(keyword: string, caseInsensitive: bool): string -> bool {
    line => Occurrences(line, keyword, caseInsensitive) > 0
  }

  /** The lines with at least one occurrence, in order. */
  function Marked(body: seq<string>, keyword: string, ci: bool): seq<string> {
    Filter(body, HasKeyword(keyword, ci))
  }

  /** The lines without an occurrence, in order. */
  function Unmarked(body: seq<string>, keyword: string, ci: bool): seq<string> {
    Reject(body, HasKeyword(keyword, ci))
  }

  /** The sum of the occurrence counts of the lines. */
  function TotalOccurrences(lines: seq<string>, keyword: string, ci: bool): nat
    decreases |lines|
  {
    if |lines| == 0 then 0
    else TotalOccurrences(lines[..|lines| - 1], keyword, ci) + Occurrences(lines[|lines| - 1], keyword, ci)
  }

  /** The count over all body lines is the count over the marked lines. */
  lemma {:induction false} TotalOverMarked(body: seq<string>, keyword: string, ci: bool)
    ensures TotalOccurrences(body, keyword, ci) == TotalOccurrences(Marked(body, keyword, ci), keyword, ci)
    decreases |body|
  {
    if |body| > 0 {
      var init := body[..|body| - 1];
      var x := body[|body| - 1];
      var p := HasKeyword(keyword, ci);
      TotalOverMarked(init, keyword, ci);
      var m := Filter(init, p);
      assert Marked(body, keyword, ci) == if p(x) then m + [x] else m;
      if p(x) {
        assert (m + [x])[..|m + [x]| - 1] == m;
        assert TotalOccurrences(m + [x], keyword, ci) == TotalOccurrences(m, keyword, ci) + Occurrences(x, keyword, ci);
      } else {
        assert Occurrences(x, keyword, ci) == 0;
      }
    }
  }

  /** The marked and unmarked lines together are the body, each line once. */
  lemma KeywordPartition(body: seq<string>, keyword: string, ci: bool)
    ensures multiset(Marked(body, keyword, ci)) + multiset(Unmarked(body, keyword, ci)) == multiset(body)
    ensures |Marked(body, keyword, ci)| + |Unmarked(body, keyword, ci)| == |body|
    ensures forall l :: l in Marked(body, keyword, ci) ==> Occurrences(l, keyword, ci) > 0
    ensures forall l :: l in Unmarked(body, keyword, ci) ==> Occurrences(l, keyword, ci) == 0
  {
    FilterRejectSplit(body, HasKeyword(keyword, ci));
  }

  /** Splitting the body into two pieces splits both outputs the same way. */
  lemma KeywordPartitionAppend(a: seq<string>, b: seq<string>, keyword: string, ci: bool)
    ensures Marked(a + b, keyword, ci) == Marked(a, keyword, ci) + Marked(b, keyword, ci)
    ensures Unmarked(a + b, keyword, ci) == Unmarked(a, keyword, ci) + Unmarked(b, keyword, ci)
  {
    FilterAppend(a, b, HasKeyword(keyword, ci));
  }

  // -------------------------------------------------------- DocNum keys

  /** Whether gathered DocNums are trimmed, and routing compares trimmed fields. */
  datatype KeyMode = Trimmed | Raw

  /** The DocNum value a line contributes; "" contributes nothing. */
  function KeyOf(line: string, idx: Option<nat>, d: Dialect, mode: KeyMode): string {
    var f := GetField(line, idx, d).GetOr("");
    if mode == Trimmed then Strip(f) else f
  }

  /** The non-empty keys of `lines`, each once, in order of first appearance. */
  function Gathered(lines: seq<string>, idx: Option<nat>, d: Dialect, mode: KeyMode): (keys: seq<string>)
    ensures forall k :: 0 <= k < |keys| ==> keys[k] != ""
    ensures forall i, j :: 0 <= i < j < |keys| ==> keys[i] != keys[j]
    decreases |lines|
  {
    if |lines| == 0 then []
    else
      var prev := Gathered(lines[..|lines| - 1], idx, d, mode);
      var k := KeyOf(lines[|lines| - 1], idx, d, mode);
      if k != "" && k !in prev then prev + [k] else prev
  }

  /** A key is gathered exactly when some line contributes it. */
  lemma {:induction false} GatheredMembers(lines: seq<string>, idx: Option<nat>, d: Dialect, mode: KeyMode, key: string)
    ensures key in Gathered(lines, idx, d, mode)
        <==> key != "" && exists j :: 0 <= j < |lines| && KeyOf(lines[j], idx, d, mode) == key
    decreases |lines|
  {
    if |lines| > 0 {
      var init := lines[..|lines| - 1];
      GatheredMembers(init, idx, d, mode, key);
      ImageStep(lines, init, l => KeyOf(l, idx, d, mode), key);
    }
  }

  /** Some element among the first `|s| - 1` or the last one has image `key` under `f`. */
  lemma ImageStep<T>(s: seq<T>, init: seq<T>, f: T -> string, key: string)
    requires |s| > 0 && init == s[..|s| - 1]
    ensures (exists j :: 0 <= j < |s| && f(s[j]) == key)
        <==> (exists j :: 0 <= j < |init| && f(init[j]) == key) || f(s[|s| - 1]) == key
  {
    if exists j :: 0 <= j < |s| && f(s[j]) == key {
      var j :| 0 <= j < |s| && f(s[j]) == key;
      if j < |s| - 1 {
        assert init[j] == s[j];
      }
    }
    if exists j :: 0 <= j < |init| && f(init[j]) == key {
      var j :| 0 <= j < |init| && f(init[j]) == key;
      assert s[j] == init[j];
    }
  }

  /** The same, with the contributing line named by membership. */
  lemma GatheredIn(lines: seq<string>, idx: Option<nat>, d: Dialect, mode: KeyMode, key: string)
    ensures key in Gathered(lines, idx, d, mode)
        <==> key != "" && exists l :: l in lines && KeyOf(l, idx, d, mode) == key
  {
    GatheredMembers(lines, idx, d, mode, key);
    if key != "" && exists l :: l in lines && KeyOf(l, idx, d, mode) == key {
      var l :| l in lines && KeyOf(l, idx, d, mode) == key;
      var j :| 0 <= j < |lines| && lines[j] == l;
    }
  }

  /** Keys already gathered keep their places when more lines follow. */
  lemma {:induction false} GatheredPrefix(a: seq<string>, b: seq<string>, idx: Option<nat>, d: Dialect, mode: KeyMode)
    ensures Gathered(a, idx, d, mode) <= Gathered(a + b, idx, d, mode)
    decreases |b|
  {
    if |b| == 0 {
      assert a + b == a;
    } else {
      var b' := b[..|b| - 1];
      assert (a + b)[..|a + b| - 1] == a + b';
      GatheredPrefix(a, b', idx, d, mode);
    }
  }

  /** With the DocNum column unresolved nothing is gathered. */
  lemma {:induction false} GatheredUnresolved(lines: seq<string>, d: Dialect, mode: KeyMode)
    ensures Gathered(lines, None, d, mode) == []
    decreases |lines|
  {
    if |lines| > 0 {
      GatheredUnresolved(lines[..|lines| - 1], d, mode);
      StripUnchanged("");
    }
  }

  // ------------------------------------------------------------- routing

  /** Whether a second-file line's DocNum is among `keys`. */
  function Matches(line: string, idx: Option<nat>, d: Dialect, keys: set<string>, mode: KeyMode): bool {
    match mode
    case Trimmed => Strip(GetField(line, idx, d).GetOr("")) in keys
    case Raw => GetField(line, idx, d).Some? && GetField(line, idx, d).value in keys
  }

  function MatchesKeys(idx: Option<nat>, d: Dialect, keys: set<string>, mode: KeyMode): string -> bool {
    line => Matches(line, idx, d, keys, mode)
  }

  function MatchedLines(body: seq<string>, idx: Option<nat>, d: Dialect, keys: set<string>, mode: KeyMode): seq<string> {
    Filter(body, MatchesKeys(idx, d, keys, mode))
  }

  function OtherLines(body: seq<string>, idx: Option<nat>, d: Dialect, keys: set<string>, mode: KeyMode): seq<string> {
    Reject(body, MatchesKeys(idx, d, keys, mode))
  }

  /** Each second-file line is routed to exactly one side, by membership of its key. */
  lemma RoutePartition(body: seq<string>, idx: Option<nat>, d: Dialect, keys: set<string>, mode: KeyMode)
    ensures multiset(MatchedLines(body, idx, d, keys, mode)) + multiset(OtherLines(body, idx, d, keys, mode)) == multiset(body)
    ensures forall l :: l in MatchedLines(body, idx, d, keys, mode) <==> l in body && Matches(l, idx, d, keys, mode)
    ensures forall l :: l in OtherLines(body, idx, d, keys, mode) <==> l in body && !Matches(l, idx, d, keys, mode)
  {
    var p := MatchesKeys(idx, d, keys, mode);
    FilterRejectSplit(body, p);
    forall l ensures l in Filter(body, p) <==> l in body && p(l)
      ensures l in Reject(body, p) <==> l in body && !p(l)
    {
      FilterMember(body, p, l);
    }
  }

  /**
   * When the key set holds no empty string, a line whose DocNum cannot be
   * read (column unresolved or row too short) is never matched.
   */
  lemma UnreadableNeverMatches(line: string, idx: Option<nat>, d: Dialect, keys: set<string>, mode: KeyMode)
    requires "" !in keys
    requires GetField(line, idx, d).None?
    ensures !Matches(line, idx, d, keys, mode)
  {
    StripUnchanged("");
  }

  // ---------------------------------------------------------------- loops

  /**
   * The sap1 loop: each body line goes to the marked or unmarked list,
   * the count grows by its occurrences, and a marked line's non-empty
   * DocNum is recorded once.
   */
  method SplitByKeyword(body: seq<string>, keyword: string, ci: bool, idx: Option<nat>, d: Dialect, mode: KeyMode)
    returns (withKw: seq<string>, withoutKw: seq<string>, docnums: seq<string>, count: nat)
    ensures withKw == Marked(body, keyword, ci)
    ensures withoutKw == Unmarked(body, keyword, ci)
    ensures docnums == Gathered(withKw, idx, d, mode)
    ensures count == TotalOccurrences(body, keyword, ci)
  {
    withKw, withoutKw, docnums, count := [], [], [], 0;
    var i := 0;
    while i < |body|
      invariant 0 <= i <= |body|
      invariant withKw == Marked(body[..i], keyword, ci)
      invariant withoutKw == Unmarked(body[..i], keyword, ci)
      invariant docnums == Gathered(withKw, idx, d, mode)
      invariant count == TotalOccurrences(body[..i], keyword, ci)
    {
      KeywordStep(body, i, keyword, ci);
      withKw, withoutKw, docnums, count := TakeLine(body[i], keyword, ci, idx, d, mode, withKw, withoutKw, docnums, count);
      i := i + 1;
    }
    assert body[..i] == body;
  }

  /** The loop body of the split: one line joins its output, its DocNum is gathered, its occurrences counted. */
  method TakeLine(line: string, keyword: string, ci: bool, idx: Option<nat>, d: Dialect, mode: KeyMode,
                  withKw: seq<string>, withoutKw: seq<string>, docnums: seq<string>, count: nat)
    returns (withKw': seq<string>, withoutKw': seq<string>, docnums': seq<string>, count': nat)
    requires docnums == Gathered(withKw, idx, d, mode)
    ensures var occ := Occurrences(line, keyword, ci);
      && withKw' == withKw + (if occ > 0 then [line] else [])
      && withoutKw' == withoutKw + (if occ > 0 then [] else [line])
      && docnums' == Gathered(withKw', idx, d, mode)
      && count' == count + occ
  {
    withKw', withoutKw', docnums', count' := withKw, withoutKw, docnums, count;
    var occ := Occurrences(line, keyword, ci);
    if occ > 0 {
      GatheredSnoc(withKw, line, idx, d, mode);
      withKw' := withKw + [line];
      count' := count + occ;
      var dv := KeyOf(line, idx, d, mode);
      if dv != "" && dv !in docnums {
        docnums' := docnums + [dv];
      }
    } else {
      withoutKw' := withoutKw + [line];
    }
  }

  /** One more body line joins one of the two outputs and adds its occurrences to the count. */
  lemma KeywordStep(body: seq<string>, i: nat, keyword: string, ci: bool)
    requires i < |body|
    ensures var occ := Occurrences(body[i], keyword, ci);
      && Marked(body[..i + 1], keyword, ci) == Marked(body[..i], keyword, ci) + (if occ > 0 then [body[i]] else [])
      && Unmarked(body[..i + 1], keyword, ci) == Unmarked(body[..i], keyword, ci) + (if occ > 0 then [] else [body[i]])
      && TotalOccurrences(body[..i + 1], keyword, ci) == TotalOccurrences(body[..i], keyword, ci) + occ
  {
    assert body[..i + 1][..i] == body[..i];
  }

  /** One more line adds its key to the gathered keys when the key is new and non-empty. */
  lemma GatheredSnoc(lines: seq<string>, line: string, idx: Option<nat>, d: Dialect, mode: KeyMode)
    ensures var k := KeyOf(line, idx, d, mode);
      var g := Gathered(lines, idx, d, mode);
      Gathered(lines + [line], idx, d, mode) == if k != "" && k !in g then g + [k] else g
  {
    assert (lines + [line])[..|lines|] == lines;
  }

  /** The sap2 loop: each line goes to the matched or the other list. */
  method RouteByKey(body: seq<string>, idx: Option<nat>, d: Dialect, keys: set<string>, mode: KeyMode)
    returns (matched: seq<string>, others: seq<string>)
    ensures matched == MatchedLines(body, idx, d, keys, mode)
    ensures others == OtherLines(body, idx, d, keys, mode)
  {
    matched, others := [], [];
    var i := 0;
    while i < |body|
      invariant 0 <= i <= |body|
      invariant matched == MatchedLines(body[..i], idx, d, keys, mode)
      invariant others == OtherLines(body[..i], idx, d, keys, mode)
    {
      assert body[..i + 1][..i] == body[..i];
      if Matches(body[i], idx, d, keys, mode) {
        matched := matched + [body[i]];
      } else {
        others := others + [body[i]];
      }
      i := i + 1;
    }
    assert body[..i] == body;
  }
}
