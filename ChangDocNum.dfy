/**
 * ChangDocNum.py: renumber repeated DocNums in Edit_sap1.txt. Every body
 * line is read and written back (with "\n" line ends); the second and later
 * lines with the same trimmed DocNum get a new DocNum: the number plus how
 * many times it was seen before, or the value with "_<n>" appended when it
 * is not an integer. The result goes to ChangDocNum.txt.
 */
module ChangDocNum {
  import opened Wrappers
  import opened Strings
  import opened Table
  import opened Files
  import opened Steps

  const TargetFile := "C:\\Users\\kornkanok\\Documents\\Automation_api\\minus_0\\Edit_sap1.txt"
  const OutputFile := "C:\\Users\\kornkanok\\Documents\\Automation_api\\Check_Docnum\\ChangDocNum.txt"

  // ------------------------------------------------------------ integers

  predicate IsSign(c: char) { c == '+' || c == '-' }

  /** What `int(s)` accepts, once `s` is trimmed: an optional sign, then decimal digits. */
  predicate IsIntText(s: string) {
    if |s| > 0 && IsSign(s[0]) then |s| > 1 && AllDigits(s[1..]) else |s| > 0 && AllDigits(s)
  }

  /** `int(s)` on a trimmed string, None for the ValueError. */
  function ParseInt(s: string): (r: Option<int>)
    ensures r.Some? <==> IsIntText(s)
    ensures r.Some? && |s| > 0 && s[0] == '-' ==> r.value <= 0
    ensures r.Some? && |s| > 0 && s[0] != '-' ==> r.value >= 0
  {
    if |s| > 0 && IsSign(s[0]) then
      if |s| > 1 && AllDigits(s[1..]) then
        var m: int := DigitsValue(s[1..]);
        Some(if s[0] == '-' then -m else m)
      else None
    else if |s| > 0 && AllDigits(s) then Some(DigitsValue(s))
    else None
  }

  /** `int(str(i)) == i`. */
  lemma ParseIntOfIntToStr(i: int)
    ensures ParseInt(IntToStr(i)) == Some(i)
  {
    var s := IntToStr(i);
    if i < 0 {
      assert s[1..] == NatToStr(-i);
      NatToStrValue(-i);
    } else {
      NatToStrValue(i);
    }
  }

  /** Two integers with the same text are equal. */
  lemma IntToStrInjective(a: int, b: int)
    requires IntToStr(a) == IntToStr(b)
    ensures a == b
  {
    ParseIntOfIntToStr(a);
    ParseIntOfIntToStr(b);
  }

  // ----------------------------------------------------------- renumbering

  /**
   * The DocNum a value gets when it has been seen `j` times before: the
   * integer plus `j` when the value is an integer, otherwise the value
   * followed by "_" and `j`.
   */
  function Bumped(v: string, j: nat): string {
    match ParseInt(v)
    case Some(b) => IntToStr(b + j)
    case None => v + "_" + NatToStr(j)
  }

  /** Different counts give different DocNums for the same value. */
  lemma BumpedInjective(v: string, j1: nat, j2: nat)
    requires Bumped(v, j1) == Bumped(v, j2)
    ensures j1 == j2
  {
    match ParseInt(v)
    case Some(b) =>
      IntToStrInjective(b + j1, b + j2);
    case None =>
      var s1, s2 := v + "_" + NatToStr(j1), v + "_" + NatToStr(j2);
      assert s1[|v| + 1..] == NatToStr(j1);
      assert s2[|v| + 1..] == NatToStr(j2);
      NatToStrInjective(j1, j2);
  }

  /** A DocNum as it is compared: no surrounding whitespace, no delimiter or line break. */
  predicate CleanKey(v: string, d: Dialect) {
    PlainField(v, d) && (v == [] || (!IsSpace(v[0]) && !IsSpace(v[|v| - 1])))
  }

  /** Trimming only removes characters. */
  lemma StripChars(f: string)
    ensures forall c :: c in Strip(f) ==> c in f
  {
    var r, o := Strip(f), StripOffset(f);
    StripSlice(f);
    forall c | c in r ensures c in f {
      var k :| 0 <= k < |r| && r[k] == c;
      assert f[o + k] == c;
    }
  }

  /** Trimming a field the reader produced gives a clean key. */
  lemma StripClean(f: string, d: Dialect)
    requires PlainField(f, d)
    ensures CleanKey(Strip(f), d)
  {
    StripChars(f);
  }

  /** A non-empty run of digits and minus signs that ends in a digit is a clean key. */
  lemma NumeralClean(s: string, d: Dialect)
    requires ValidDialect(d) && |s| > 0 && IsDigit(s[|s| - 1])
    requires forall k :: 0 <= k < |s| ==> IsDigit(s[k]) || s[k] == '-'
    ensures CleanKey(s, d)
  {
    forall k | 0 <= k < |s| ensures s[k] != d.delimiter && s[k] != '\r' && s[k] != '\n' {
      assert IsDigit(s[k]) || s[k] == '-';
    }
    assert !IsSpace(s[0]) by {
      assert IsDigit(s[0]) || s[0] == '-';
    }
  }

  /** The text of an integer is a clean key under any of the delimiters. */
  lemma IntToStrClean(n: int, d: Dialect)
    requires ValidDialect(d)
    ensures IntToStr(n) != "" && CleanKey(IntToStr(n), d)
  {
    var s := IntToStr(n);
    var t := NatToStr(if n < 0 then -n else n);
    if n < 0 {
      assert s == "-" + t;
      forall k | 0 <= k < |s| ensures IsDigit(s[k]) || s[k] == '-' {
        if k > 0 {
          assert s[k] == t[k - 1];
        }
      }
    } else {
      assert s == t;
    }
    assert s[|s| - 1] == t[|t| - 1];
    NumeralClean(s, d);
  }

  /** A clean key with "_" and a count appended is a clean key. */
  lemma SuffixedClean(v: string, j: nat, d: Dialect)
    requires ValidDialect(d) && CleanKey(v, d)
    ensures CleanKey(v + "_" + NatToStr(j), d)
  {
    var t := NatToStr(j);
    var s := v + "_" + t;
    forall c | c in s ensures c in v || c == '_' || IsDigit(c) {
      var k :| 0 <= k < |s| && s[k] == c;
      if k < |v| {
        assert s[k] == v[k];
      } else if k > |v| {
        assert s[k] == t[k - |v| - 1];
      }
    }
    assert !IsSpace(s[|s| - 1]) by {
      assert s[|s| - 1] == t[|t| - 1];
    }
    assert !IsSpace(s[0]) by {
      if |v| > 0 {
        assert s[0] == v[0];
      }
    }
  }

  /** A new DocNum is non-empty, a clean key, and fits in its field. */
  lemma BumpedClean(v: string, j: nat, d: Dialect)
    requires ValidDialect(d) && CleanKey(v, d)
    ensures Bumped(v, j) != "" && CleanKey(Bumped(v, j), d)
  {
    match ParseInt(v)
    case Some(b) => IntToStrClean(b + j, d);
    case None => SuffixedClean(v, j, d);
  }

  /** How often `keys[i]` has been seen once line `i` is counted: `seen[docnum_val]`. */
  function SeenCount(keys: seq<string>, i: nat): nat
    requires i < |keys|
  {
    Seen(keys, i + 1)[keys[i]]
  }

  /** The DocNums of the first `i` lines, as `seen` counts them. */
  function Seen(keys: seq<string>, i: nat): multiset<string>
    requires i <= |keys|
  {
    multiset(keys[..i])
  }

  /** Line `i` is the first with its DocNum. */
  predicate IsFirst(keys: seq<string>, i: nat)
    requires i < |keys|
  {
    keys[i] !in keys[..i]
  }

  /**
   * The renumbering as written: for each line, None when it is the first
   * with its DocNum, otherwise the DocNum `Bumped` by the number of earlier
   * lines with the same DocNum.
   */
  function Renumber(keys: seq<string>): (ren: seq<Option<string>>)
    ensures |ren| == |keys|
  {
    seq(|keys|, i requires 0 <= i < |keys| => RenumberAt(keys, i))
  }

  /** The new DocNum of line `i`, if any. */
  function RenumberAt(keys: seq<string>, i: nat): Option<string>
    requires i < |keys|
  {
    if SeenCount(keys, i) > 1 then Some(Bumped(keys[i], SeenCount(keys, i) - 1)) else None
  }

  /** The DocNums after a renumbering: the new one where there is one, the old one otherwise. */
  function Resolved(keys: seq<string>, ren: seq<Option<string>>): (out: seq<string>)
    requires |ren| == |keys|
    ensures |out| == |keys|
  {
    seq(|keys|, i requires 0 <= i < |keys| => ren[i].GetOr(keys[i]))
  }

  predicate Distinct(s: seq<string>) {
    forall a, b :: 0 <= a < b < |s| ==> s[a] != s[b]
  }

  /** A renumbering whose new DocNums are clean, non-empty keys. */
  predicate CleanRenumbering(keys: seq<string>, ren: seq<Option<string>>, d: Dialect) {
    |ren| == |keys| && forall i :: 0 <= i < |ren| && ren[i].Some? ==> ren[i].value != "" && CleanKey(ren[i].value, d)
  }

  /** A line keeps its DocNum exactly when it is the first with that DocNum. */
  lemma RenumberKeepsFirst(keys: seq<string>, i: nat)
    requires i < |keys|
    ensures Renumber(keys)[i].None? <==> IsFirst(keys, i)
    ensures Renumber(keys)[i].Some? ==> Renumber(keys)[i].value == Bumped(keys[i], Seen(keys, i)[keys[i]])
  {
    SeenCountStep(keys, i);
  }

  /** Line `i` is seen once more than the earlier lines with its DocNum. */
  lemma SeenCountStep(keys: seq<string>, i: nat)
    requires i < |keys|
    ensures Seen(keys, i + 1) == Seen(keys, i) + multiset{keys[i]}
    ensures SeenCount(keys, i) == Seen(keys, i)[keys[i]] + 1
    ensures IsFirst(keys, i) <==> Seen(keys, i)[keys[i]] == 0
  {
    assert keys[..i + 1] == keys[..i] + [keys[i]];
  }

  /** The renumbering as written only produces clean keys. */
  lemma RenumberClean(keys: seq<string>, d: Dialect)
    requires ValidDialect(d)
    requires forall i :: 0 <= i < |keys| ==> CleanKey(keys[i], d)
    ensures CleanRenumbering(keys, Renumber(keys), d)
  {
    var ren := Renumber(keys);
    forall i | 0 <= i < |ren| && ren[i].Some? ensures ren[i].value != "" && CleanKey(ren[i].value, d) {
      assert ren[i] == RenumberAt(keys, i);
      BumpedClean(keys[i], SeenCount(keys, i) - 1, d);
    }
  }

  /**
   * The renumbering as written can produce a DocNum that is already taken:
   * DocNums 5, 5, 6 become 5, 6, 6. Leading zeros of a numeric DocNum are
   * lost as well: a second "007" becomes "8".
   */
  lemma RenumberCollides()
    ensures var keys := ["5", "5", "6"];
      Resolved(keys, Renumber(keys)) == ["5", "6", "6"] && !Distinct(Resolved(keys, Renumber(keys)))
  {
    var keys := ["5", "5", "6"];
    CollideSteps();
    var out := Resolved(keys, Renumber(keys));
    assert out[0] == "5" && out[1] == "6" && out[2] == "6";
  }

  /** Line by line: the first "5" and the "6" keep theirs, the second "5" becomes "6". */
  lemma CollideSteps()
    ensures RenumberAt(["5", "5", "6"], 0) == None
    ensures RenumberAt(["5", "5", "6"], 1) == Some("6")
    ensures RenumberAt(["5", "5", "6"], 2) == None
  {
    var keys := ["5", "5", "6"];
    assert keys[..1] == ["5"];
    SecondFive();
    assert keys[..3] == keys;
    assert multiset(keys)["6"] == 1;
  }

  /** The second "5" is counted twice and so becomes 5 + 1, the "6" of the next line. */
  lemma SecondFive()
    ensures RenumberAt(["5", "5", "6"], 1) == Some("6")
  {
    var keys := ["5", "5", "6"];
    assert keys[..2] == ["5", "5"];
    assert multiset(keys[..2])["5"] == 2;
    assert ParseInt("5") == Some(5) by {
      assert AllDigits("5") && "5"[..0] == "";
    }
    assert NatToStr(6) == "6";
  }

  /** A bumped DocNum loses its leading zeros: "007" bumped once is "8". */
  lemma BumpDropsZeros()
    ensures Bumped("007", 1) == "8"
  {
    assert ParseInt("007") == Some(7) by {
      assert "007"[..2] == "00" && "00"[..1] == "0" && "0"[..0] == "";
    }
    assert NatToStr(8) == "8";
  }

  /**
   * The intended renumbering: every repeated DocNum gets the first
   * `Bumped` value not yet used by any line, so no two lines share a
   * DocNum. First occurrences keep theirs, and repeats are numbered as the
   * script numbers them whenever that causes no collision.
   */
  method DistinctRenumber(keys: seq<string>) returns (ren: seq<Option<string>>)
    ensures |ren| == |keys|
    ensures forall i :: 0 <= i < |keys| ==> (ren[i].None? <==> IsFirst(keys, i))
    ensures forall i :: 0 <= i < |keys| && ren[i].Some? ==> ren[i].value !in keys && IsBump(keys[i], ren[i].value)
    ensures Distinct(Resolved(keys, ren))
  {
    var used := SetOf(keys);
    ren := [];
    ghost var res: seq<string> := [];
    for i := 0 to |keys|
      invariant RenumberedSoFar(keys, ren, res, used, i)
    {
      if !IsFirst(keys, i) {
        var t := FreeBump(keys[i], used);
        var nk := Bumped(keys[i], t);
        BumpStep(keys, ren, res, used, i, t);
        ren, res, used := ren + [Some(nk)], res + [nk], used + {nk};
      } else {
        KeepStep(keys, ren, res, used, i);
        ren, res := ren + [None], res + [keys[i]];
      }
    }
    assert res == Resolved(keys, ren);
  }

  /**
   * What the first `i` lines of `DistinctRenumber` have established: `res`
   * holds their resolved DocNums, pairwise distinct and all in `used`, which
   * holds every key.
   */
  ghost predicate RenumberedSoFar(keys: seq<string>, ren: seq<Option<string>>, res: seq<string>, used: set<string>, i: nat) {
    i <= |keys| && RenamedSoFar(keys, ren, i) && ResolvedSoFar(keys, ren, res) && Distinct(res) && Covers(keys, res, used)
  }

  /** The first `i` entries of a renumbering meet the contract of `DistinctRenumber`. */
  ghost predicate RenamedSoFar(keys: seq<string>, ren: seq<Option<string>>, i: nat) {
    && |ren| == i <= |keys|
    && (forall j :: 0 <= j < i ==> (ren[j].None? <==> IsFirst(keys, j)))
    && (forall j :: 0 <= j < i && ren[j].Some? ==> ren[j].value !in keys && IsBump(keys[j], ren[j].value))
  }

  /** `res` is `Resolved` on the first `|ren|` keys. */
  predicate ResolvedSoFar(keys: seq<string>, ren: seq<Option<string>>, res: seq<string>) {
    |res| == |ren| <= |keys| && forall j :: 0 <= j < |res| ==> res[j] == ren[j].GetOr(keys[j])
  }

  /** `used` holds every key and every resolved DocNum so far. */
  predicate Covers(keys: seq<string>, res: seq<string>, used: set<string>) {
    SetOf(keys) <= used && forall x :: x in res ==> x in used
  }

  lemma RenamedAppend(keys: seq<string>, ren: seq<Option<string>>, i: nat, x: Option<string>)
    requires RenamedSoFar(keys, ren, i) && i < |keys|
    requires x.None? <==> IsFirst(keys, i)
    requires x.Some? ==> x.value !in keys && IsBump(keys[i], x.value)
    ensures RenamedSoFar(keys, ren + [x], i + 1)
  {
    var ren' := ren + [x];
    forall j | 0 <= j < i + 1
      ensures (ren'[j].None? <==> IsFirst(keys, j))
      ensures ren'[j].Some? ==> ren'[j].value !in keys && IsBump(keys[j], ren'[j].value)
    {
      if j < i {
        assert ren'[j] == ren[j];
      }
    }
  }

  lemma ResolvedAppend(keys: seq<string>, ren: seq<Option<string>>, res: seq<string>, x: Option<string>)
    requires ResolvedSoFar(keys, ren, res) && |ren| < |keys|
    ensures ResolvedSoFar(keys, ren + [x], res + [x.GetOr(keys[|ren|])])
  {
    var ren', res' := ren + [x], res + [x.GetOr(keys[|ren|])];
    forall j | 0 <= j < |res'| ensures res'[j] == ren'[j].GetOr(keys[j]) {
      if j < |res| {
        assert res'[j] == res[j] && ren'[j] == ren[j];
      }
    }
  }

  lemma CoversAppend(keys: seq<string>, res: seq<string>, used: set<string>, x: string)
    requires Covers(keys, res, used)
    ensures Covers(keys, res + [x], used + {x})
  {
  }

  /** A repeated DocNum takes the first free `Bumped` value. */
  lemma BumpStep(keys: seq<string>, ren: seq<Option<string>>, res: seq<string>, used: set<string>, i: nat, t: nat)
    requires RenumberedSoFar(keys, ren, res, used, i) && i < |keys| && !IsFirst(keys, i)
    requires t >= 1 && Bumped(keys[i], t) !in used
    ensures var nk := Bumped(keys[i], t);
      RenumberedSoFar(keys, ren + [Some(nk)], res + [nk], used + {nk}, i + 1)
  {
    var nk := Bumped(keys[i], t);
    assert nk !in SetOf(keys);
    assert nk !in res;
    assert IsBump(keys[i], nk);
    RenamedAppend(keys, ren, i, Some(nk));
    ResolvedAppend(keys, ren, res, Some(nk));
    DistinctAppend(res, nk);
    CoversAppend(keys, res, used, nk);
  }

  /** A first occurrence keeps its DocNum. */
  lemma KeepStep(keys: seq<string>, ren: seq<Option<string>>, res: seq<string>, used: set<string>, i: nat)
    requires RenumberedSoFar(keys, ren, res, used, i) && i < |keys| && IsFirst(keys, i)
    ensures RenumberedSoFar(keys, ren + [None], res + [keys[i]], used, i + 1)
  {
    FirstStaysDistinct(keys, ren, res, i);
    RenamedAppend(keys, ren, i, None);
    ResolvedAppend(keys, ren, res, None);
    assert keys[i] in SetOf(keys);
    CoversAppend(keys, res, used, keys[i]);
    assert used + {keys[i]} == used;
  }

  lemma DistinctAppend(s: seq<string>, x: string)
    requires Distinct(s) && x !in s
    ensures Distinct(s + [x])
  {
  }

  /** A first occurrence is distinct from every earlier resolved DocNum, when new DocNums are not keys. */
  lemma FirstStaysDistinct(keys: seq<string>, ren: seq<Option<string>>, res: seq<string>, i: nat)
    requires |ren| == i == |res| && i < |keys| && IsFirst(keys, i)
    requires forall j :: 0 <= j < i && ren[j].Some? ==> ren[j].value !in keys
    requires forall j :: 0 <= j < i ==> res[j] == ren[j].GetOr(keys[j])
    requires Distinct(res)
    ensures Distinct(res + [keys[i]])
  {
    assert keys[i] in keys;
    forall j | 0 <= j < i ensures res[j] != keys[i] {
      if ren[j].None? {
        assert res[j] == keys[..i][j];
      }
    }
    DistinctAppend(res, keys[i]);
  }

  /** `x` is one of the DocNums the script could give a repeat of `v`. */
  ghost predicate IsBump(v: string, x: string) {
    exists t: nat :: t >= 1 && x == Bumped(v, t)
  }

  /** `Bumped(v, j)` for `1 <= j < t`. */
  function Tried(v: string, t: nat): set<string> {
    set j: nat | 1 <= j < t :: Bumped(v, j)
  }

  lemma {:induction false} TriedSize(v: string, t: nat)
    requires t >= 1
    ensures |Tried(v, t)| == t - 1
    decreases t
  {
    if t > 1 {
      TriedSize(v, t - 1);
      assert Tried(v, t) == Tried(v, t - 1) + {Bumped(v, t - 1)};
      if Bumped(v, t - 1) in Tried(v, t - 1) {
        var j: nat :| 1 <= j < t - 1 && Bumped(v, j) == Bumped(v, t - 1);
        BumpedInjective(v, j, t - 1);
      }
    } else {
      assert Tried(v, t) == {};
    }
  }

  /** The smallest `t >= 1` with `Bumped(v, t)` unused: there are only finitely many used values. */
  method FreeBump(v: string, used: set<string>) returns (t: nat)
    ensures t >= 1 && Bumped(v, t) !in used
    ensures forall j :: 1 <= j < t ==> Bumped(v, j) in used
  {
    t := 1;
    while Bumped(v, t) in used
      invariant t >= 1
      invariant Tried(v, t) <= used
      invariant forall j :: 1 <= j < t ==> Bumped(v, j) in used
      decreases |used| + 1 - t
    {
      TriedSize(v, t);
      SubsetPaths(Tried(v, t), used);
      assert Tried(v, t + 1) == Tried(v, t) + {Bumped(v, t)};
      t := t + 1;
      TriedSize(v, t);
      SubsetPaths(Tried(v, t), used);
    }
  }

  // ----------------------------------------------------------------- lines

  /** `row[docnum_idx].strip()`, with "" for a row too short to have the field. */
  function KeyOf(line: string, idx: nat, d: Dialect): string {
    Strip(GetField(line, Some(idx), d).GetOr(""))
  }

  /** The trimmed DocNums of the lines. */
  function Keys(body: seq<string>, idx: nat, d: Dialect): (keys: seq<string>)
    ensures |keys| == |body|
  {
    seq(|body|, i requires 0 <= i < |body| => KeyOf(body[i], idx, d))
  }

  /** Every line has the DocNum field; a shorter one is the IndexError of `row[docnum_idx]`. */
  predicate AllHaveField(body: seq<string>, idx: nat, d: Dialect) {
    forall i :: 0 <= i < |body| ==> idx < |ParseRow(body[i], d)|
  }

  /** `make_line(row, dialect)` after the DocNum field is replaced by `nk`, when given. */
  function FixedLine(line: string, idx: nat, d: Dialect, nk: Option<string>): string {
    var row := ParseRow(line, d);
    Serialize(if nk.Some? && idx < |row| then row[idx := nk.value] else row, Dialect(d.delimiter, "\n"))
  }

  /** Every line, rewritten under a renumbering. */
  function FixedLines(body: seq<string>, idx: nat, d: Dialect, ren: seq<Option<string>>): (out: seq<string>)
    requires |ren| == |body|
    ensures |out| == |body|
  {
    seq(|body|, i requires 0 <= i < |body| => FixedLine(body[i], idx, d, ren[i]))
  }

  /** Why the script stops before writing anything. */
  datatype Failure = Missing | NoHeaderLine | NoDocNumColumn | ShortRow

  /** What the script writes to `output_file`, or why it stops first. */
  function Report(text: string, headerRows: int, sniff: string -> Option<char>): Result<string, Failure> {
    match ReadLayout(text, headerRows, sniff)
    case None => Err(NoHeaderLine)
    case Some(lay) =>
      match DocNumColumn(lay)
      case None => Err(NoDocNumColumn)
      case Some(idx) =>
        match Rewritten(lay.body, idx, lay.d)
        case None => Err(ShortRow)
        case Some(out) => Ok(Concat(lay.head) + Concat(out))
  }

  /** The rewritten body, or None for a line without the DocNum field. */
  function Rewritten(body: seq<string>, idx: nat, d: Dialect): Option<seq<string>> {
    if AllHaveField(body, idx, d) then Some(FixedLines(body, idx, d, Renumber(Keys(body, idx, d)))) else None
  }

  // ---------------------------------------------------------------- proofs

  /** The reader only looks at the delimiter of a dialect. */
  lemma ParseRowDelimiterOnly(line: string, d: Dialect, e: Dialect)
    requires d.delimiter == e.delimiter
    ensures ParseRow(line, d) == ParseRow(line, e)
  {
  }

  /**
   * A rewritten line is one line ending in "\n" and reads back as the old
   * row with the DocNum field replaced, when a new DocNum is given.
   */
  lemma FixedLineSpec(line: string, idx: nat, d: Dialect, nk: Option<string>)
    requires ValidDialect(d) && idx < |ParseRow(line, d)|
    requires nk.Some? ==> nk.value != "" && PlainField(nk.value, d)
    ensures var row := ParseRow(line, d);
      ParseRow(FixedLine(line, idx, d, nk), d) == (if nk.Some? then row[idx := nk.value] else row)
    ensures IsLine(FixedLine(line, idx, d, nk)) && EndsInNewline(FixedLine(line, idx, d, nk))
  {
    var row := ParseRow(line, d);
    var e := Dialect(d.delimiter, "\n");
    var newRow := if nk.Some? then row[idx := nk.value] else row;
    assert forall k :: 0 <= k < |newRow| ==> PlainField(newRow[k], e);
    assert newRow != [""] by {
      if nk.Some? && |newRow| == 1 {
        assert newRow[0] == nk.value;
      }
    }
    RowRoundTrip(newRow, e);
    SerializedIsLine(newRow, e);
    ParseRowDelimiterOnly(FixedLine(line, idx, d, nk), d, e);
  }

  /**
   * Under a clean renumbering every rewritten line keeps its fields but the
   * DocNum, and its trimmed DocNum is the resolved one.
   */
  lemma FixedLinesSpec(body: seq<string>, idx: nat, d: Dialect, ren: seq<Option<string>>)
    requires ValidDialect(d) && AllHaveField(body, idx, d)
    requires CleanRenumbering(Keys(body, idx, d), ren, d)
    ensures var out := FixedLines(body, idx, d, ren);
      forall i :: 0 <= i < |body| ==>
        && IsLine(out[i]) && EndsInNewline(out[i])
        && |ParseRow(out[i], d)| == |ParseRow(body[i], d)|
        && (forall k :: 0 <= k < |ParseRow(body[i], d)| && k != idx ==> ParseRow(out[i], d)[k] == ParseRow(body[i], d)[k])
        && KeyOf(out[i], idx, d) == Resolved(Keys(body, idx, d), ren)[i]
  {
    var out := FixedLines(body, idx, d, ren);
    forall i | 0 <= i < |body|
      ensures IsLine(out[i]) && EndsInNewline(out[i])
      ensures |ParseRow(out[i], d)| == |ParseRow(body[i], d)|
      ensures forall k :: 0 <= k < |ParseRow(body[i], d)| && k != idx ==> ParseRow(out[i], d)[k] == ParseRow(body[i], d)[k]
      ensures KeyOf(out[i], idx, d) == Resolved(Keys(body, idx, d), ren)[i]
    {
      FixedLineSpec(body[i], idx, d, ren[i]);
      if ren[i].None? {
        assert ParseRow(out[i], d) == ParseRow(body[i], d);
      } else {
        StripUnchanged(ren[i].value);
      }
    }
  }

  /** The trimmed DocNums of the lines are clean keys. */
  lemma KeysClean(body: seq<string>, idx: nat, d: Dialect)
    ensures forall i :: 0 <= i < |body| ==> CleanKey(Keys(body, idx, d)[i], d)
  {
    forall i | 0 <= i < |body| ensures CleanKey(Keys(body, idx, d)[i], d) {
      var f := GetField(body[i], Some(idx), d).GetOr("");
      assert PlainField(f, d);
      StripClean(f, d);
    }
  }

  /** The output reads back as the header followed by one rewritten line per body line. */
  lemma ReportReadsBack(text: string, headerRows: nat, sniff: string -> Option<char>)
    requires Report(text, headerRows, sniff).Ok?
    ensures var lay := ReadLayout(text, headerRows, sniff).value;
      var idx := DocNumColumn(lay).value;
      IterRows(Report(text, headerRows, sniff).value, headerRows) ==
        (lay.head, FixedLines(lay.body, idx, lay.d, Renumber(Keys(lay.body, idx, lay.d))))
  {
    var lay := ReadLayout(text, headerRows, sniff).value;
    var idx := DocNumColumn(lay).value;
    var keys := Keys(lay.body, idx, lay.d);
    KeysClean(lay.body, idx, lay.d);
    RenumberClean(keys, lay.d);
    FixedLinesSpec(lay.body, idx, lay.d, Renumber(keys));
    MappedReadsBack(text, headerRows, FixedLines(lay.body, idx, lay.d, Renumber(keys)));
  }

  /**
   * With the intended renumbering no two written lines share a DocNum, and
   * each keeps every other field.
   */
  lemma DistinctOutput(body: seq<string>, idx: nat, d: Dialect, ren: seq<Option<string>>)
    requires ValidDialect(d) && AllHaveField(body, idx, d) && |ren| == |body|
    requires forall i :: 0 <= i < |body| && ren[i].Some? ==> IsBump(Keys(body, idx, d)[i], ren[i].value)
    requires Distinct(Resolved(Keys(body, idx, d), ren))
    ensures var out := FixedLines(body, idx, d, ren);
      && Distinct(seq(|out|, i requires 0 <= i < |out| => KeyOf(out[i], idx, d)))
      && (forall i :: 0 <= i < |body| ==> |ParseRow(out[i], d)| == |ParseRow(body[i], d)|)
      && forall i, k :: 0 <= i < |body| && 0 <= k < |ParseRow(body[i], d)| && k != idx ==>
           ParseRow(out[i], d)[k] == ParseRow(body[i], d)[k]
  {
    var keys := Keys(body, idx, d);
    KeysClean(body, idx, d);
    forall i | 0 <= i < |ren| && ren[i].Some? ensures ren[i].value != "" && CleanKey(ren[i].value, d) {
      var t: nat :| t >= 1 && ren[i].value == Bumped(keys[i], t);
      BumpedClean(keys[i], t, d);
    }
    FixedLinesSpec(body, idx, d, ren);
  }

  // ----------------------------------------------------------------- loops

  /**
   * The loop over the body lines: count each trimmed DocNum in `seen`,
   * renumber the repeats and write every line; None at the first line
   * without the DocNum field.
   */
  method FixLines(body: seq<string>, idx: nat, d: Dialect) returns (r: Option<seq<string>>)
    ensures r == Rewritten(body, idx, d)
  {
    ghost var keys := Keys(body, idx, d);
    ghost var ren := Renumber(keys);
    var seen: map<string, nat> := map[];
    var out: seq<string> := [];
    for i := 0 to |body|
      invariant FixedSoFar(body, idx, d, keys, ren, seen, out, i)
    {
      var row := ParseRow(body[i], d);
      if idx >= |row| {
        return None;
      }
      var v := Strip(row[idx]);
      var count := CountOr(seen, v) + 1;
      var nk := NewDocNum(v, count);
      KeyAt(body, idx, d, i);
      FixStep(body, idx, d, keys, ren, seen, out, i, count, nk);
      seen := seen[v := count];
      out := out + [FixedLine(body[i], idx, d, nk)];
    }
    WrittenAll(body, idx, d, ren, out);
    r := Some(out);
  }

  /** What the loop of `FixLines` has established after `i` lines, with `keys` and `ren` the DocNums and their renumbering. */
  ghost predicate FixedSoFar(body: seq<string>, idx: nat, d: Dialect, keys: seq<string>, ren: seq<Option<string>>,
                             seen: map<string, nat>, out: seq<string>, i: nat) {
    && keys == Keys(body, idx, d) && ren == Renumber(keys)
    && i <= |body| && |out| == i
    && CountedSoFar(keys, seen, i)
    && HaveFieldSoFar(body, idx, d, i)
    && WrittenSoFar(body, idx, d, ren, out)
  }

  /** `seen` counts the DocNums of the first `i` lines. */
  ghost predicate CountedSoFar(keys: seq<string>, seen: map<string, nat>, i: nat) {
    i <= |keys| && forall v :: CountOr(seen, v) == Seen(keys, i)[v]
  }

  /** The first `i` lines have the DocNum field. */
  predicate HaveFieldSoFar(body: seq<string>, idx: nat, d: Dialect, i: nat) {
    i <= |body| && forall j :: 0 <= j < i ==> idx < |ParseRow(body[j], d)|
  }

  /** `out` holds the first `|out|` lines rewritten under `ren`. */
  predicate WrittenSoFar(body: seq<string>, idx: nat, d: Dialect, ren: seq<Option<string>>, out: seq<string>) {
    |out| <= |body| && |ren| == |body| && forall j :: 0 <= j < |out| ==> out[j] == FixedLine(body[j], idx, d, ren[j])
  }

  lemma WrittenAppend(body: seq<string>, idx: nat, d: Dialect, ren: seq<Option<string>>, out: seq<string>)
    requires WrittenSoFar(body, idx, d, ren, out) && |out| < |body|
    ensures WrittenSoFar(body, idx, d, ren, out + [FixedLine(body[|out|], idx, d, ren[|out|])])
  {
    var out' := out + [FixedLine(body[|out|], idx, d, ren[|out|])];
    forall j | 0 <= j < |out'| ensures out'[j] == FixedLine(body[j], idx, d, ren[j]) {
      if j < |out| {
        assert out'[j] == out[j];
      }
    }
  }

  lemma WrittenAll(body: seq<string>, idx: nat, d: Dialect, ren: seq<Option<string>>, out: seq<string>)
    requires WrittenSoFar(body, idx, d, ren, out) && |out| == |body|
    ensures out == FixedLines(body, idx, d, ren)
  {
  }

  lemma HaveFieldAppend(body: seq<string>, idx: nat, d: Dialect, i: nat)
    requires HaveFieldSoFar(body, idx, d, i) && i < |body| && idx < |ParseRow(body[i], d)|
    ensures HaveFieldSoFar(body, idx, d, i + 1)
  {
  }

  /** The loop's new DocNum for a line whose DocNum `v` is now counted `count` times, if it needs one. */
  method NewDocNum(v: string, count: nat) returns (nk: Option<string>)
    ensures nk == LoopBump(v, count)
  {
    var base := ParseInt(v);
    nk := None;
    if count > 1 {
      if base.Some? {
        nk := Some(IntToStr(base.value + (count - 1)));
      } else {
        nk := Some(v + "_" + NatToStr(count - 1));
      }
    }
  }

  /** The new DocNum the loop computes for a line from the count kept in `seen`. */
  function LoopBump(v: string, count: nat): Option<string> {
    if count > 1 then
      match ParseInt(v)
      case Some(b) => Some(IntToStr(b + (count - 1)))
      case None => Some(v + "_" + NatToStr(count - 1))
    else None
  }

  /** One pass of the loop: count the line's DocNum, then write the line, renumbered as `Renumber` says. */
  lemma FixStep(body: seq<string>, idx: nat, d: Dialect, keys: seq<string>, ren: seq<Option<string>>,
                seen: map<string, nat>, out: seq<string>, i: nat, count: nat, nk: Option<string>)
    requires FixedSoFar(body, idx, d, keys, ren, seen, out, i) && i < |body| && idx < |ParseRow(body[i], d)|
    requires count == CountOr(seen, keys[i]) + 1 && nk == LoopBump(keys[i], count)
    ensures FixedSoFar(body, idx, d, keys, ren, seen[keys[i] := count], out + [FixedLine(body[i], idx, d, nk)], i + 1)
  {
    CountStep(keys, seen, seen[keys[i] := count], i);
    WrittenAppend(body, idx, d, ren, out);
    HaveFieldAppend(body, idx, d, i);
  }

  lemma KeyAt(body: seq<string>, idx: nat, d: Dialect, i: nat)
    requires i < |body| && idx < |ParseRow(body[i], d)|
    ensures Keys(body, idx, d)[i] == Strip(ParseRow(body[i], d)[idx])
  {
    assert Keys(body, idx, d)[i] == KeyOf(body[i], idx, d);
  }

  /** Counting `keys[i]` in `seen` keeps it equal to `Seen`, and the count gives `Renumber`'s new DocNum. */
  lemma CountStep(keys: seq<string>, seen: map<string, nat>, seen': map<string, nat>, i: nat)
    requires i < |keys| && CountedSoFar(keys, seen, i)
    requires seen' == seen[keys[i] := CountOr(seen, keys[i]) + 1]
    ensures CountedSoFar(keys, seen', i + 1)
    ensures Renumber(keys)[i] == LoopBump(keys[i], CountOr(seen, keys[i]) + 1)
  {
    SeenCountStep(keys, i);
    var count := CountOr(seen, keys[i]) + 1;
    assert count == SeenCount(keys, i);
    assert Renumber(keys)[i] == RenumberAt(keys, i);
  }

  /**
   * The script: a missing target, an empty header, a missing DocNum column
   * or a row without the DocNum field stops it with nothing written;
   * otherwise the header and the rewritten lines go to `output_file`.
   */
  method FixDocNums(fs: FileStore, headerRows: int, sniff: string -> Option<char>) returns (r: Result<(), Failure>)
    requires fs.Valid()
    modifies fs
    ensures fs.Valid()
    ensures TargetFile !in old(fs.files) ==> r == Err(Missing) && fs.files == old(fs.files)
    ensures TargetFile in old(fs.files) ==>
      var rep := Report(old(fs.files)[TargetFile], headerRows, sniff);
      && (rep.Err? ==> r == Err(rep.error) && fs.files == old(fs.files))
      && (rep.Ok? ==> r == Ok(()) && fs.files == old(fs.files)[OutputFile := rep.value])
  {
    if TargetFile !in fs.files {
      return Err(Missing);
    }
    var rep := BuildReport(fs.files[TargetFile], headerRows, sniff);
    if rep.Err? {
      return Err(rep.error);
    }
    fs.Write(OutputFile, rep.value);
    r := Ok(());
  }

  /** The text to write, computed from the target file's text. */
  method BuildReport(text: string, headerRows: int, sniff: string -> Option<char>) returns (rep: Result<string, Failure>)
    ensures rep == Report(text, headerRows, sniff)
  {
    var lay := ReadLayout(text, headerRows, sniff);
    if lay.None? {
      return Err(NoHeaderLine);
    }
    rep := LayoutReport(lay.value);
  }

  /** The text to write for a file read as `lay`. */
  method LayoutReport(lay: Layout) returns (rep: Result<string, Failure>)
    requires |lay.head| > 0 && lay.cols == ParseRow(lay.head[|lay.head| - 1], lay.d)
    ensures DocNumColumn(lay).None? ==> rep == Err(NoDocNumColumn)
    ensures DocNumColumn(lay).Some? ==>
      match Rewritten(lay.body, DocNumColumn(lay).value, lay.d)
      case None => rep == Err(ShortRow)
      case Some(out) => rep == Ok(Concat(lay.head) + Concat(out))
  {
    var idx := FindColIndex(lay.head[|lay.head| - 1], lay.d, "DocNum");
    assert idx == DocNumColumn(lay);
    if idx.None? {
      return Err(NoDocNumColumn);
    }
    var fixed := FixLines(lay.body, idx.value, lay.d);
    if fixed.None? {
      return Err(ShortRow);
    }
    rep := Ok(Concat(lay.head) + Concat(fixed.value));
  }

  /**
   * The same loop with the intended renumbering: the lines are rewritten
   * with DocNums no two of which are equal.
   */
  method FixLinesDistinct(body: seq<string>, idx: nat, d: Dialect) returns (r: Option<seq<string>>)
    requires ValidDialect(d)
    ensures r.Some? <==> AllHaveField(body, idx, d)
    ensures r.Some? ==>
      && |r.value| == |body|
      && Distinct(seq(|r.value|, i requires 0 <= i < |r.value| => KeyOf(r.value[i], idx, d)))
      && (forall i :: 0 <= i < |body| ==> |ParseRow(r.value[i], d)| == |ParseRow(body[i], d)|)
      && forall i, k :: 0 <= i < |body| && 0 <= k < |ParseRow(body[i], d)| && k != idx ==>
           ParseRow(r.value[i], d)[k] == ParseRow(body[i], d)[k]
  {
    if !AllHaveField(body, idx, d) {
      return None;
    }
    var ren := DistinctRenumber(Keys(body, idx, d));
    DistinctOutput(body, idx, d, ren);
    r := Some(FixedLines(body, idx, d, ren));
  }
}
