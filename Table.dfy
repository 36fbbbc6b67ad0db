/**
 * The line-oriented table logic every script shares: splitting a text into
 * lines that keep their terminators, the header/body split of `iter_rows`,
 * the CSV dialect, reading one row from one line, writing a row back, and
 * resolving header names to column positions.
 */
module Table {
  import opened Wrappers
  import opened Strings

  // ---------------------------------------------------------------- lines

  /**
   * `text.splitlines(keepends=True)` with "\n" as the line boundary (a
   * "\r\n" line ends in "\n" as well).
   */
  function Lines(t: string): (ls: seq<string>)
    ensures Concat(ls) == t
    ensures forall k :: 0 <= k < |ls| ==> |ls[k]| > 0
    decreases |t|
  {
    if |t| == 0 then []
    else if t[0] == '\n' then ["\n"] + Lines(t[1..])
    else
      var rest := Lines(t[1..]);
      if |rest| == 0 then [[t[0]]] else [[t[0]] + rest[0]] + rest[1..]
  }

  /** A line holds "\n" only as its last character. */
  predicate IsLine(l: string) {
    |l| > 0 && forall j :: 0 <= j < |l| - 1 ==> l[j] != '\n'
  }

  /** Lines as `splitlines` produces them: only the last may lack "\n". */
  predicate WellFormedLines(ls: seq<string>) {
    (forall k :: 0 <= k < |ls| ==> IsLine(ls[k]))
    && (forall k :: 0 <= k < |ls| - 1 ==> ls[k][|ls[k]| - 1] == '\n')
  }

  lemma {:induction false} LinesWellFormed(t: string)
    ensures WellFormedLines(Lines(t))
    decreases |t|
  {
    if |t| > 0 {
      LinesWellFormed(t[1..]);
      var rest := Lines(t[1..]);
      if t[0] != '\n' && |rest| > 0 {
        var ls := Lines(t);
        assert ls[1..] == rest[1..];
        assert forall j :: 1 <= j < |ls[0]| ==> ls[0][j] == rest[0][j - 1];
      }
    }
  }

  /** Splitting "line + text" puts that line first. */
  lemma {:induction false} LinesCons(l: string, t: string)
    requires IsLine(l) && l[|l| - 1] == '\n'
    ensures Lines(l + t) == [l] + Lines(t)
    decreases |l|
  {
    if |l| == 1 {
      assert (l + t)[1..] == t;
    } else {
      var l' := l[1..];
      assert (l + t)[1..] == l' + t;
      LinesCons(l', t);
      assert [l[0]] + l' == l;
    }
  }

  /** A last line without "\n" is one line. */
  lemma {:induction false} LinesSingle(l: string)
    requires |l| > 0 && '\n' !in l
    ensures Lines(l) == [l]
    decreases |l|
  {
    assert l[0] in l;
    if |l| > 1 {
      assert l[1..][0] in l;
      assert forall x :: x in l[1..] ==> x in l;
      LinesSingle(l[1..]);
      assert [l[0]] + l[1..] == l;
    } else {
      assert Lines(l[1..]) == [];
      assert [l[0]] == l;
    }
  }

  /** Joining well-formed lines and splitting again gives the same lines. */
  lemma {:induction false} LinesConcat(ls: seq<string>)
    requires WellFormedLines(ls)
    ensures Lines(Concat(ls)) == ls
    decreases |ls|
  {
    if |ls| == 1 {
      if ls[0][|ls[0]| - 1] == '\n' {
        LinesCons(ls[0], "");
        assert ls[0] + "" == ls[0];
      } else {
        LinesSingle(ls[0]);
      }
      assert Concat(ls) == ls[0];
    } else if |ls| > 1 {
      LinesConcat(ls[1..]);
      LinesCons(ls[0], Concat(ls[1..]));
    }
  }

  /** Python's clamping of a slice bound `n` against a length. */
  function SliceBound(n: int, len: nat): (k: nat)
    ensures k <= len
    ensures 0 <= n ==> k == if n < len then n else len
    ensures n < 0 ==> k == if len + n < 0 then 0 else len + n
  {
    if n < 0 then (if len + n < 0 then 0 else len + n) else if n < len then n else len
  }

  /** `iter_rows`: the first `n` lines are the header, the rest the body. */
  function IterRows(text: string, n: int): (hb: (seq<string>, seq<string>))
    ensures hb.0 + hb.1 == Lines(text)
    ensures Concat(hb.0) + Concat(hb.1) == text
    ensures 0 <= n ==> |hb.0| == if n < |Lines(text)| then n else |Lines(text)|
  {
    var ls := Lines(text);
    var k := SliceBound(n, |ls|);
    assert ls[..k] + ls[k..] == ls;
    ConcatAppend(ls[..k], ls[k..]);
    (ls[..k], ls[k..])
  }

  /** `head[-1]`, which raises IndexError on an empty header. */
  function LastLine(head: seq<string>): Option<string> {
    if |head| == 0 then None else Some(head[|head| - 1])
  }

  /**
   * `"".join(head[-1:]) or "".join(body[:1])`: the last header line, or
   * failing that the first body line, as the sample handed to the sniffer.
   */
  function Sample(head: seq<string>, body: seq<string>): string {
    if |head| > 0 && head[|head| - 1] != "" then head[|head| - 1]
    else if |body| > 0 then body[0]
    else ""
  }

  // -------------------------------------------------------------- dialect

  datatype Dialect = Dialect(delimiter: char, terminator: string)

  /** The delimiters the scripts offer the sniffer. */
  const Delimiters: set<char> := {',', '\t', '|', ';'}

  /** The hand-made dialect used when sniffing fails. */
  const Fallback: Dialect := Dialect('\t', "\n")

  predicate ValidDialect(d: Dialect) {
    d.delimiter in Delimiters && (d.terminator == "\n" || d.terminator == "\r\n")
  }

  /**
   * `detect_dialect(sample)`: the sniffer's guess (a parameter here, since its
   * heuristics are library code) when it offers one of the allowed delimiters,
   * otherwise the tab-separated fallback. Sniffed dialects end rows in "\r\n".
   */
  function DetectDialect(sample: string, sniff: string -> Option<char>): (d: Dialect)
    ensures ValidDialect(d)
    ensures d == Fallback || d.delimiter == sniff(sample).GetOr('\t')
  {
    match sniff(sample)
    case Some(c) => if c in Delimiters then Dialect(c, "\r\n") else Fallback
    case None => Fallback
  }

  // ---------------------------------------------------------------- rows

  /** The first record of a line: the text before the first "\r" or "\n". */
  function RecordText(line: string): (t: string)
    ensures '\r' !in t && '\n' !in t
    ensures StartsWith(line, t)
    decreases |line|
  {
    if |line| == 0 || line[0] == '\r' || line[0] == '\n' then ""
    else [line[0]] + RecordText(line[1..])
  }

  lemma {:induction false} RecordTextOf(t: string, rest: string)
    requires '\r' !in t && '\n' !in t
    requires |rest| > 0 && (rest[0] == '\r' || rest[0] == '\n')
    ensures RecordText(t + rest) == t
    decreases |t|
  {
    if |t| > 0 {
      assert (t + rest)[1..] == t[1..] + rest;
      RecordTextOf(t[1..], rest);
      assert [t[0]] + t[1..] == t;
    } else {
      assert t + rest == rest;
    }
  }

  /** A field as the reader delivers it: no delimiter and no line break in it. */
  predicate PlainField(f: string, d: Dialect) {
    d.delimiter !in f && '\r' !in f && '\n' !in f
  }

  /**
   * `next(csv.reader(StringIO(line), dialect))`: the fields of the line's
   * first record split on the delimiter; a blank record reads as [].
   */
  function ParseRow(line: string, d: Dialect): (row: seq<string>)
    ensures forall k :: 0 <= k < |row| ==> PlainField(row[k], d)
    ensures row != [""]
  {
    var t := RecordText(line);
    if t == "" then []
    else
      var parts := Split(t, d.delimiter);
      JoinSplit(t, d.delimiter);
      assert forall k :: 0 <= k < |parts| ==> '\r' !in parts[k] && '\n' !in parts[k];
      parts
  }

  /** `csv.writer(buf, dialect).writerow(row)`, quoting aside. */
  function Serialize(row: seq<string>, d: Dialect): string {
    Join(row, [d.delimiter]) + d.terminator
  }

  /** Writing a row the reader produced and reading it back gives the row. */
  lemma RowRoundTrip(row: seq<string>, d: Dialect)
    requires ValidDialect(d)
    requires forall k :: 0 <= k < |row| ==> PlainField(row[k], d)
    requires row != [""]
    ensures ParseRow(Serialize(row, d), d) == row
  {
    var j := Join(row, [d.delimiter]);
    if '\r' in j {
      JoinChars(row, [d.delimiter], '\r');
    }
    if '\n' in j {
      JoinChars(row, [d.delimiter], '\n');
    }
    RecordTextOf(j, d.terminator);
    if |row| > 0 {
      assert j != "" by {
        if |row| > 1 {
          assert j == row[0] + [d.delimiter] + Join(row[1..], [d.delimiter]);
        } else {
          assert j == row[0];
        }
      }
      SplitJoin(row, d.delimiter);
    }
  }

  predicate EndsInNewline(l: string) {
    |l| > 0 && l[|l| - 1] == '\n'
  }

  /** A written row is one line, ending in the terminator's "\n". */
  lemma SerializedIsLine(row: seq<string>, d: Dialect)
    requires ValidDialect(d)
    requires forall k :: 0 <= k < |row| ==> PlainField(row[k], d)
    ensures IsLine(Serialize(row, d)) && EndsInNewline(Serialize(row, d))
  {
    var j := Join(row, [d.delimiter]);
    if '\n' in j {
      JoinChars(row, [d.delimiter], '\n');
    }
    var s := j + d.terminator;
    forall i | 0 <= i < |s| - 1 ensures s[i] != '\n' {
      if i < |j| {
        assert s[i] == j[i];
      } else {
        assert s[i] == d.terminator[i - |j|];
      }
    }
  }

  /** `get_field`: the field at `idx`, or None when unresolved or out of range. */
  function GetField(line: string, idx: Option<nat>, d: Dialect): (f: Option<string>)
    ensures f.Some? <==> idx.Some? && idx.value < |ParseRow(line, d)|
    ensures f.Some? ==> f.value == ParseRow(line, d)[idx.value]
  {
    match idx
    case None => None
    case Some(i) =>
      var row := ParseRow(line, d);
      if i < |row| then Some(row[i]) else None
  }
  /**
   * `get_field` on a line written from plain fields reads back the field
   * written at that index, and None past the last one.
   */
  lemma GetFieldOfWritten(row: seq<string>, i: nat, d: Dialect)
    requires ValidDialect(d)
    requires forall k :: 0 <= k < |row| ==> PlainField(row[k], d)
    requires row != [""]
    ensures GetField(Serialize(row, d), Some(i), d) == if i < |row| then Some(row[i]) else None
  {
    RowRoundTrip(row, d);
  }


  // ---------------------------------------------------- column resolution

  /** A header cell as the scripts compare it: trimmed and lower-cased. */
  function Norm(c: string): string {
    Lower(Strip(c))
  }

  /** The header cells as the scripts compare them. */
  function NormAll(cols: seq<string>): (ns: seq<string>)
    ensures |ns| == |cols| && forall i :: 0 <= i < |cols| ==> ns[i] == Norm(cols[i])
  {
    seq(|cols|, i requires 0 <= i < |cols| => Norm(cols[i]))
  }

  /**
   * The position `{c.strip().lower(): i for i, c in enumerate(cols)}` keeps
   * for `key`: a later duplicate overwrites an earlier one, so the last.
   */
  function LastIndexOf(cols: seq<string>, key: string): (r: Option<nat>)
    ensures r.Some? ==> r.value < |cols| && Norm(cols[r.value]) == key
    ensures r.Some? ==> forall j :: r.value < j < |cols| ==> Norm(cols[j]) != key
    ensures r.None? ==> forall j :: 0 <= j < |cols| ==> Norm(cols[j]) != key
  {
    var ns := NormAll(cols);
    LastIndexBelow(ns, key, |ns|)
  }

  /** The last position below `n` holding `key`. */
  function LastIndexBelow(xs: seq<string>, key: string, n: nat): (r: Option<nat>)
    requires n <= |xs|
    ensures r.Some? ==> r.value < n && xs[r.value] == key
    ensures r.Some? ==> forall j :: r.value < j < n ==> xs[j] != key
    ensures r.None? ==> forall j :: 0 <= j < n ==> xs[j] != key
    decreases n
  {
    if n == 0 then None
    else if xs[n - 1] == key then Some(n - 1)
    else LastIndexBelow(xs, key, n - 1)
  }

  /** The first position whose trimmed, lower-cased name is `key`. */
  function FirstIndexOf(cols: seq<string>, key: string): (r: Option<nat>)
    ensures r.Some? ==> r.value < |cols| && Norm(cols[r.value]) == key
    ensures r.Some? ==> forall j :: 0 <= j < r.value ==> Norm(cols[j]) != key
    ensures r.None? ==> forall j :: 0 <= j < |cols| ==> Norm(cols[j]) != key
  {
    FirstIndexFrom(NormAll(cols), key, 0)
  }

  /** The first position from `n` on holding `key`. */
  function FirstIndexFrom(xs: seq<string>, key: string, n: nat): (r: Option<nat>)
    requires n <= |xs|
    ensures r.Some? ==> n <= r.value < |xs| && xs[r.value] == key
    ensures r.Some? ==> forall j :: n <= j < r.value ==> xs[j] != key
    ensures r.None? ==> forall j :: n <= j < |xs| ==> xs[j] != key
    decreases |xs| - n
  {
    if n == |xs| then None
    else if xs[n] == key then Some(n)
    else FirstIndexFrom(xs, key, n + 1)
  }

  /** Two different names never resolve to the same column. */
  lemma LastIndexDistinct(cols: seq<string>, a: string, b: string)
    requires a != b && LastIndexOf(cols, a).Some? && LastIndexOf(cols, b).Some?
    ensures LastIndexOf(cols, a) != LastIndexOf(cols, b)
  {
  }

  /**
   * `find_index_ci`: the dictionary hit of the first name (lower-cased) that
   * has one.
   */
  function FindIndexCI(cols: seq<string>, names: seq<string>): Option<nat> {
    FirstSome(Columns(cols, names))
  }

  /** The column `find_index_ci` holds for the `k`-th name. */
  function ColumnOf(cols: seq<string>, names: seq<string>, k: nat): Option<nat>
    requires k < |names|
  {
    LastIndexOf(cols, Lower(names[k]))
  }

  /** The columns of the names, in the order `find_index_ci` tries them. */
  function Columns(cols: seq<string>, names: seq<string>): (hs: seq<Option<nat>>)
    ensures |hs| == |names|
  {
    seq(|names|, k requires 0 <= k < |names| => ColumnOf(cols, names, k))
  }

  /** The first present entry. */
  function FirstSome(hs: seq<Option<nat>>): Option<nat> {
    if hs == [] then None
    else if hs[0].Some? then hs[0]
    else FirstSome(hs[1..])
  }

  lemma {:induction false} FirstSomeFirst(hs: seq<Option<nat>>, k: nat)
    requires k < |hs| && hs[k].Some?
    requires forall j :: 0 <= j < k ==> hs[j].None?
    ensures FirstSome(hs) == hs[k]
  {
    if k > 0 {
      FirstSomeFirst(hs[1..], k - 1);
    }
  }

  lemma {:induction false} FirstSomeNone(hs: seq<Option<nat>>)
    ensures FirstSome(hs).None? <==> forall k :: 0 <= k < |hs| ==> hs[k].None?
  {
    if hs != [] {
      FirstSomeNone(hs[1..]);
      assert forall k :: 1 <= k < |hs| ==> hs[k] == hs[1..][k - 1];
    }
  }

  lemma {:induction false} FirstSomeHit(hs: seq<Option<nat>>)
    requires FirstSome(hs).Some?
    ensures exists k :: 0 <= k < |hs| && FirstSome(hs) == hs[k]
  {
    if hs[0].None? {
      FirstSomeHit(hs[1..]);
      var k :| 0 <= k < |hs[1..]| && FirstSome(hs[1..]) == hs[1..][k];
      assert FirstSome(hs) == hs[k + 1];
    } else {
      assert FirstSome(hs) == hs[0];
    }
  }

  /** `find_index_ci` answers with the last column of the first name that has one. */
  lemma FindIndexCIFirst(cols: seq<string>, names: seq<string>, k: nat)
    requires k < |names| && ColumnOf(cols, names, k).Some?
    requires forall j :: 0 <= j < k ==> ColumnOf(cols, names, j).None?
    ensures FindIndexCI(cols, names) == ColumnOf(cols, names, k)
  {
    var hs := Columns(cols, names);
    forall j | 0 <= j < k ensures hs[j].None? {
      assert hs[j] == ColumnOf(cols, names, j);
    }
    assert hs[k] == ColumnOf(cols, names, k);
    FirstSomeFirst(hs, k);
  }

  /** `find_index_ci` answers with nothing exactly when no name has a column. */
  lemma FindIndexCINone(cols: seq<string>, names: seq<string>)
    ensures FindIndexCI(cols, names).None? <==>
      forall k :: 0 <= k < |names| ==> ColumnOf(cols, names, k).None?
  {
    var hs := Columns(cols, names);
    FirstSomeNone(hs);
    assert forall k :: 0 <= k < |names| ==> hs[k] == ColumnOf(cols, names, k);
  }

  /** A hit of `find_index_ci` is the hit of one of the names. */
  lemma FindIndexCIHit(cols: seq<string>, names: seq<string>)
    requires FindIndexCI(cols, names).Some?
    ensures exists k :: 0 <= k < |names| && FindIndexCI(cols, names) == ColumnOf(cols, names, k)
  {
    var hs := Columns(cols, names);
    FirstSomeHit(hs);
    var k :| 0 <= k < |hs| && FirstSome(hs) == hs[k];
    assert FindIndexCI(cols, names) == ColumnOf(cols, names, k);
  }

  /**
   * A hit of `find_index_ci` is a column whose trimmed, lower-cased name is
   * one of the names, and the last column with that name.
   */
  lemma FindIndexCILast(cols: seq<string>, names: seq<string>)
    requires FindIndexCI(cols, names).Some?
    ensures var i := FindIndexCI(cols, names).value;
      && i < |cols|
      && (exists k :: 0 <= k < |names| && Norm(cols[i]) == Lower(names[k]))
      && forall j :: i < j < |cols| ==> Norm(cols[j]) != Norm(cols[i])
  {
    FindIndexCIHit(cols, names);
    var k :| 0 <= k < |names| && FindIndexCI(cols, names) == ColumnOf(cols, names, k);
    var i := FindIndexCI(cols, names).value;
    assert Norm(cols[i]) == Lower(names[k]);
  }

  /** No upper-case letter anywhere in the names. */
  predicate LowerNames(a: seq<string>) {
    forall i :: 0 <= i < |a| ==> forall c :: 0 <= c < |a[i]| ==> !('A' <= a[i][c] <= 'Z')
  }

  /** Two lists of distinct lower-case names never resolve to the same column. */
  lemma FindIndexCIApart(cols: seq<string>, a: seq<string>, b: seq<string>)
    requires LowerNames(a) && LowerNames(b)
    requires forall i, j :: 0 <= i < |a| && 0 <= j < |b| ==> a[i] != b[j]
    requires FindIndexCI(cols, a).Some? && FindIndexCI(cols, b).Some?
    ensures FindIndexCI(cols, a) != FindIndexCI(cols, b)
  {
    FindIndexCIHit(cols, a);
    FindIndexCIHit(cols, b);
    var i :| 0 <= i < |a| && FindIndexCI(cols, a) == ColumnOf(cols, a, i);
    var j :| 0 <= j < |b| && FindIndexCI(cols, b) == ColumnOf(cols, b, j);
    LowerKeeps(a[i]);
    LowerKeeps(b[j]);
  }

  /**
   * `find_docnum_index` / `find_col_index`: the first header cell whose
   * trimmed, lower-cased text is the lower-cased name; None when no cell is.
   */
  function FindColIndex(headerLine: string, d: Dialect, name: string): (r: Option<nat>)
    ensures var cols := ParseRow(headerLine, d);
      && (r.Some? ==> r.value < |cols| && Norm(cols[r.value]) == Lower(name))
      && (r.Some? ==> forall j :: 0 <= j < r.value ==> Norm(cols[j]) != Lower(name))
      && (r.None? ==> forall j :: 0 <= j < |cols| ==> Norm(cols[j]) != Lower(name))
  {
    FirstIndexOf(ParseRow(headerLine, d), Lower(name))
  }
}
