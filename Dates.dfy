/**
 * The date rules of the download scripts (Automation2.py,
 * pipeline_api_to_checks.py, import_file_api.py) and the folder-name check
 * of the folder watchers (Alert.py, Auto_Checkminus_0.py).
 *
 * A file's date is looked for with three token patterns tried in a fixed
 * order; only the first match of each is considered, it must name a real
 * calendar date, and it is written as an ISO 8601 calendar date in the
 * extended format YYYY-MM-DD (ISO 8601:2004, section 4.1.2.2).
 * `\d` and `\b` are taken over ASCII digits and word characters.
 */
module Dates {
  import opened Wrappers
  import opened Strings

  // ------------------------------------------------------------ calendar

  predicate LeapYear(y: nat) {
    y % 4 == 0 && (y % 100 != 0 || y % 400 == 0)
  }

  /** The number of days in month `m` of the Gregorian year `y`. */
  function DaysInMonth(y: nat, m: nat): nat
    requires 1 <= m <= 12
  {
    if m == 2 then (if LeapYear(y) then 29 else 28)
    else if m == 4 || m == 6 || m == 9 || m == 11 then 30
    else 31
  }

  /** What `datetime` accepts as a date. */
  predicate IsCalendarDate(y: nat, m: nat, d: nat) {
    1 <= y && 1 <= m <= 12 && 1 <= d <= DaysInMonth(y, m)
  }

  /** `\d{4}-\d{2}-\d{2}`. */
  predicate DigitShape(s: string) {
    |s| == 10 && AllDigits(s[..4]) && s[4] == '-' && AllDigits(s[5..7]) && s[7] == '-' && AllDigits(s[8..])
  }

  /** A YYYY-MM-DD text naming a calendar date. */
  predicate IsIsoDate(s: string) {
    DigitShape(s) && IsCalendarDate(DigitsValue(s[..4]), DigitsValue(s[5..7]), DigitsValue(s[8..]))
  }

  // -------------------------------------------------------- the patterns

  /**
   * The three entries of `DATE_PATTERNS`:
   * `\b(20\d{2})-(0[1-9]|1[0-2])-(0[1-9]|[12]\d|3[01])\b` read with "%Y-%m-%d",
   * `\b(0[1-9]|[12]\d|3[01])/(0[1-9]|1[0-2])/(20\d{2})\b` read with "%d/%m/%Y",
   * `\b(20\d{2})(0[1-9]|1[0-2])(0[1-9]|[12]\d|3[01])\b` read with "%Y%m%d".
   */
  datatype Pattern = YearMonthDay | DayMonthYear | Compact

  /** The order in which the patterns are tried. */
  const Priority: seq<Pattern> := [YearMonthDay, DayMonthYear, Compact]

  /** Every match of a pattern has this many characters. */
  function Width(p: Pattern): nat {
    if p == Compact then 8 else 10
  }

  /** `20\d{2}`. */
  predicate YearGroup(s: string) {
    |s| == 4 && AllDigits(s) && s[..2] == "20"
  }

  /** `0[1-9]|1[0-2]`: two digits from 01 to 12. */
  predicate MonthGroup(s: string) {
    |s| == 2 && AllDigits(s) && 1 <= DigitsValue(s) <= 12
  }

  /** `0[1-9]|[12]\d|3[01]`: two digits from 01 to 31. */
  predicate DayGroup(s: string) {
    |s| == 2 && AllDigits(s) && 1 <= DigitsValue(s) <= 31
  }

  function YearText(p: Pattern, t: string): string
    requires |t| == Width(p)
  {
    match p
    case YearMonthDay => t[..4]
    case DayMonthYear => t[6..]
    case Compact => t[..4]
  }

  function MonthText(p: Pattern, t: string): string
    requires |t| == Width(p)
  {
    match p
    case YearMonthDay => t[5..7]
    case DayMonthYear => t[3..5]
    case Compact => t[4..6]
  }

  function DayText(p: Pattern, t: string): string
    requires |t| == Width(p)
  {
    match p
    case YearMonthDay => t[8..]
    case DayMonthYear => t[..2]
    case Compact => t[6..]
  }

  predicate Separators(p: Pattern, t: string)
    requires |t| == Width(p)
  {
    match p
    case YearMonthDay => t[4] == '-' && t[7] == '-'
    case DayMonthYear => t[2] == '/' && t[5] == '/'
    case Compact => true
  }

  /** `t` is what the pattern's groups and separators match, boundaries aside. */
  predicate Shaped(p: Pattern, t: string) {
    |t| == Width(p) && Separators(p, t)
    && YearGroup(YearText(p, t)) && MonthGroup(MonthText(p, t)) && DayGroup(DayText(p, t))
  }

  /**
   * A match of `p` starting at `i`. A token starts and ends with a digit, so
   * the two `\b` ask that no word character touches it on either side.
   */
  predicate MatchAt(p: Pattern, text: string, i: int) {
    0 <= i && i + Width(p) <= |text| && Shaped(p, text[i..i + Width(p)])
    && (i == 0 || !IsWordChar(text[i - 1]))
    && (i + Width(p) == |text| || !IsWordChar(text[i + Width(p)]))
  }

  /** The first `i` in `from..end - 1` with `hit(i)`. */
  function FirstHit(hit: nat -> bool, from: nat, end: nat): Option<nat>
    decreases end - from
  {
    if from >= end then None
    else if hit(from) then Some(from)
    else FirstHit(hit, from + 1, end)
  }

  lemma {:induction false} FirstHitLeftmost(hit: nat -> bool, from: nat, end: nat)
    ensures FirstHit(hit, from, end).Some? ==>
      var i := FirstHit(hit, from, end).value;
      from <= i < end && hit(i) && forall j :: from <= j < i ==> !hit(j)
    ensures FirstHit(hit, from, end).None? ==> forall j :: from <= j < end ==> !hit(j)
    decreases end - from
  {
    if from < end && !hit(from) {
      FirstHitLeftmost(hit, from + 1, end);
    }
  }

  /** Where `p` matches in `text`. */
  function Hits(p: Pattern, text: string): nat -> bool {
    i => MatchAt(p, text, i)
  }

  /** `rx.search(text)`: the start of the leftmost match. */
  function Search(p: Pattern, text: string): Option<nat> {
    FirstHit(Hits(p, text), 0, |text| + 1)
  }

  /** The search finds the leftmost match, and finds none only when there is none. */
  lemma SearchLeftmost(p: Pattern, text: string)
    ensures Search(p, text).Some? ==>
      var i := Search(p, text).value;
      MatchAt(p, text, i) && forall j :: 0 <= j < i ==> !MatchAt(p, text, j)
    ensures Search(p, text).None? ==> forall j :: !MatchAt(p, text, j)
  {
    var hit := Hits(p, text);
    FirstHitLeftmost(hit, 0, |text| + 1);
    if Search(p, text).None? {
      forall j ensures !MatchAt(p, text, j) {
        if 0 <= j < |text| + 1 {
          assert !hit(j);
        } else {
          NoMatchOutside(p, text, j);
        }
      }
    } else {
      var i := Search(p, text).value;
      assert hit(i);
      forall j | 0 <= j < i ensures !MatchAt(p, text, j) {
        assert !hit(j);
      }
    }
  }

  /** No match starts before the text or past its end. */
  lemma NoMatchOutside(p: Pattern, text: string, j: int)
    requires !(0 <= j < |text| + 1)
    ensures !MatchAt(p, text, j)
  {
  }

  // ------------------------------------------------------- normalisation

  /** The year, month and day a token names. */
  function Ymd(p: Pattern, t: string): (nat, nat, nat)
    requires Shaped(p, t)
  {
    (DigitsValue(YearText(p, t)), DigitsValue(MonthText(p, t)), DigitsValue(DayText(p, t)))
  }

  /**
   * `normalize_date_str(token, fmt)`: "" unless the token has its pattern's
   * shape and names a calendar date; then that date as YYYY-MM-DD. The
   * groups are already zero-padded, so `strftime` writes their digits.
   */
  function NormalizeDate(p: Pattern, t: string): string {
    if Shaped(p, t) && IsCalendarDate(Ymd(p, t).0, Ymd(p, t).1, Ymd(p, t).2)
    then YearText(p, t) + "-" + MonthText(p, t) + "-" + DayText(p, t)
    else ""
  }

  /**
   * The result is "" exactly when the token is not a calendar date of its
   * pattern; otherwise it is a YYYY-MM-DD text naming the same year, month
   * and day, and a YYYY-MM-DD token comes back unchanged.
   */
  lemma NormalizeDateSpec(p: Pattern, t: string)
    ensures var r := NormalizeDate(p, t);
      && (r == "" <==> !(Shaped(p, t) && IsCalendarDate(Ymd(p, t).0, Ymd(p, t).1, Ymd(p, t).2)))
      && (r != "" ==> IsIsoDate(r) && Shaped(YearMonthDay, r) && Ymd(YearMonthDay, r) == Ymd(p, t))
      && (r != "" && p == YearMonthDay ==> r == t)
  {
    var r := NormalizeDate(p, t);
    if r != "" {
      var y, m, d := YearText(p, t), MonthText(p, t), DayText(p, t);
      assert r == y + "-" + m + "-" + d;
      assert r[..4] == y && r[5..7] == m && r[8..] == d;
      if p == YearMonthDay {
        assert r == t;
      }
    }
  }

  /** February 30th does not exist: the token gives "". */
  lemma NormalizeDateRejects()
    ensures NormalizeDate(DayMonthYear, "30/02/2025") == ""
  {
    var t := "30/02/2025";
    assert |t| == 10 && t[3..5] == "02" && "02"[..1] == "0";
    assert DigitsValue(MonthText(DayMonthYear, t)) == 2 by {
      assert MonthText(DayMonthYear, t) == "02";
    }
  }

  /** February 29th of a leap year exists and is rewritten as YYYY-MM-DD. */
  lemma NormalizeDateLeapDay()
    ensures NormalizeDate(DayMonthYear, "29/02/2024") == "2024-02-29"
  {
    LeapDayFields();
    LeapDayValues();
  }

  /** The fields of "29/02/2024" read as day, month and year. */
  lemma LeapDayFields()
    ensures YearText(DayMonthYear, "29/02/2024") == "2024"
    ensures MonthText(DayMonthYear, "29/02/2024") == "02"
    ensures DayText(DayMonthYear, "29/02/2024") == "29"
  {
  }

  /** The digits of the year and the day. */
  lemma LeapDayValues()
    ensures DigitsValue("2024") == 2024 && DigitsValue("29") == 29
  {
    assert DigitsValue("2024") == 2024 by {
      assert "2024"[..3] == "202" && "202"[..2] == "20" && "20"[..1] == "2";
    }
    assert DigitsValue("29") == 29 by {
      assert "29"[..1] == "2";
    }
  }

  // ---------------------------------------------------------- extraction

  /** The first match of `p`, normalised; "" when there is no match or it is no date. */
  function FirstDate(p: Pattern, text: string): string {
    match Search(p, text)
    case None => ""
    case Some(i) =>
      if i + Width(p) <= |text| then NormalizeDate(p, text[i..i + Width(p)]) else ""
  }

  /** The first non-empty `FirstDate` over the patterns `ps`, in order. */
  function ExtractFrom(text: string, ps: seq<Pattern>): string
    decreases |ps|
  {
    if ps == [] then ""
    else if FirstDate(ps[0], text) != "" then FirstDate(ps[0], text)
    else ExtractFrom(text, ps[1..])
  }

  /** `extract_date_from_text`. */
  function ExtractDate(text: string): string {
    ExtractFrom(text, Priority)
  }

  lemma ExtractFromFirst(text: string, ps: seq<Pattern>)
    ensures var r := ExtractFrom(text, ps);
      && (r == "" <==> forall k :: 0 <= k < |ps| ==> FirstDate(ps[k], text) == "")
      && (r != "" ==> exists k :: 0 <= k < |ps| && r == FirstDate(ps[k], text)
                                  && forall j :: 0 <= j < k ==> FirstDate(ps[j], text) == "")
  {
    ExtractFromFound(text, ps);
    FirstFoundSpec(ps, p => FirstDate(p, text));
  }

  /** The first non-empty value of `f` over `ps`, in order; "" when there is none. */
  function FirstFound<T>(ps: seq<T>, f: T -> string): string
    decreases |ps|
  {
    if ps == [] then ""
    else if f(ps[0]) != "" then f(ps[0])
    else FirstFound(ps[1..], f)
  }

  /** `ExtractFrom` is `FirstFound` with `FirstDate`. */
  lemma {:induction false} ExtractFromFound(text: string, ps: seq<Pattern>)
    ensures ExtractFrom(text, ps) == FirstFound(ps, p => FirstDate(p, text))
    decreases |ps|
  {
    if ps != [] {
      ExtractFromFound(text, ps[1..]);
    }
  }

  /** `FirstFound` is "" when every value is, and otherwise the value at the first non-empty position. */
  lemma {:induction false} FirstFoundSpec<T>(ps: seq<T>, f: T -> string)
    ensures var r := FirstFound(ps, f);
      && (r == "" <==> forall k :: 0 <= k < |ps| ==> f(ps[k]) == "")
      && (r != "" ==> exists k :: 0 <= k < |ps| && r == f(ps[k]) && forall j :: 0 <= j < k ==> f(ps[j]) == "")
    decreases |ps|
  {
    if ps != [] && f(ps[0]) == "" {
      FirstFoundSpec(ps[1..], f);
      var r := FirstFound(ps, f);
      assert r == FirstFound(ps[1..], f);
      if r != "" {
        var k :| 0 <= k < |ps| - 1 && r == f(ps[1..][k]) && forall j :: 0 <= j < k ==> f(ps[1..][j]) == "";
        NoneBeforeShift(ps, f, k + 1);
        assert ps[1..][k] == ps[k + 1];
      } else {
        NoneBeforeShift(ps, f, |ps|);
      }
    } else if ps != [] {
      assert 0 < |ps| && FirstFound(ps, f) == f(ps[0]);
    }
  }

  /** No empty value among the first `k` elements when the first is empty and so are the next `k - 1`. */
  lemma NoneBeforeShift<T>(ps: seq<T>, f: T -> string, k: nat)
    requires 0 < k <= |ps| && f(ps[0]) == ""
    requires forall j :: 0 <= j < k - 1 ==> f(ps[1..][j]) == ""
    ensures forall j :: 0 <= j < k ==> f(ps[j]) == ""
  {
    forall j | 0 < j < k ensures f(ps[j]) == "" {
      assert ps[j] == ps[1..][j - 1];
    }
  }

  /**
   * The date of a text is the normalised first match of the first pattern,
   * in the order yyyy-mm-dd, dd/mm/yyyy, yyyymmdd, whose first match is a
   * calendar date; "" when none is. What it returns is always "" or a
   * YYYY-MM-DD calendar date.
   */
  lemma ExtractDateSpec(text: string)
    ensures var r := ExtractDate(text);
      && (r == "" <==> FirstDate(YearMonthDay, text) == "" && FirstDate(DayMonthYear, text) == "" && FirstDate(Compact, text) == "")
      && (FirstDate(YearMonthDay, text) != "" ==> r == FirstDate(YearMonthDay, text))
      && (FirstDate(YearMonthDay, text) == "" && FirstDate(DayMonthYear, text) != "" ==> r == FirstDate(DayMonthYear, text))
      && (FirstDate(YearMonthDay, text) == "" && FirstDate(DayMonthYear, text) == "" ==> r == FirstDate(Compact, text))
      && (r == "" || IsIsoDate(r))
  {
    ExtractFromFirst(text, Priority);
    var r := ExtractDate(text);
    assert forall k :: 0 <= k < |Priority| ==> Priority[k] == YearMonthDay || Priority[k] == DayMonthYear || Priority[k] == Compact;
    if r != "" {
      var k :| 0 <= k < |Priority| && r == FirstDate(Priority[k], text);
      FirstDateSpec(Priority[k], text);
    }
  }

  /**
   * A pattern's date comes from its leftmost match: a non-empty result is
   * the normalised token at a match with no match before it.
   */
  lemma FirstDateSpec(p: Pattern, text: string)
    ensures var r := FirstDate(p, text);
      && (r != "" ==>
            IsIsoDate(r)
            && exists i :: (MatchAt(p, text, i) && r == NormalizeDate(p, text[i..i + Width(p)])
                            && forall j :: 0 <= j < i ==> !MatchAt(p, text, j)))
      && ((forall i :: !MatchAt(p, text, i)) ==> r == "")
  {
    SearchLeftmost(p, text);
    match Search(p, text)
    case None =>
    case Some(i) =>
      NormalizeDateSpec(p, text[i..i + Width(p)]);
  }

  /** `extract_date_from_text` as written: a loop over the patterns with an early return. */
  method ExtractDateFromText(text: string) returns (r: string)
    ensures r == ExtractDate(text)
  {
    var k := 0;
    while k < |Priority|
      invariant 0 <= k <= |Priority|
      invariant ExtractFrom(text, Priority[k..]) == ExtractDate(text)
    {
      var p := Priority[k];
      assert Priority[k..][0] == p && Priority[k..][1..] == Priority[k + 1..];
      var m := Search(p, text);
      if m.Some? && m.value + Width(p) <= |text| {
        var norm := NormalizeDate(p, text[m.value..m.value + Width(p)]);
        if norm != "" {
          return norm;
        }
      }
      k := k + 1;
    }
    return "";
  }

  // ------------------------------------------------------------ from urls

  predicate IsSeparator(c: char) {
    c == '/' || c == '\\'
  }

  /** `os.path.basename` on Windows: what follows the last "/" or "\\". */
  function BaseName(path: string): (r: string)
    ensures forall i :: 0 <= i < |r| ==> !IsSeparator(r[i])
    ensures EndsWith(path, r)
    decreases |path|
  {
    if |path| == 0 || IsSeparator(path[|path| - 1]) then ""
    else
      var r := BaseName(path[..|path| - 1]) + [path[|path| - 1]];
      assert path[..|path| - 1][|path| - 1 - (|r| - 1)..] == path[|path| - |r|..|path| - 1];
      r
  }

  /** The base name of a path ending in a separator-free name is that name. */
  lemma {:induction false} BaseNameOfChild(dir: string, name: string)
    requires forall i :: 0 <= i < |name| ==> !IsSeparator(name[i])
    ensures BaseName(dir + "/" + name) == name
    decreases |name|
  {
    var path := dir + "/" + name;
    if |name| > 0 {
      var last := |name| - 1;
      assert path[..|path| - 1] == dir + "/" + name[..last];
      BaseNameOfChild(dir, name[..last]);
      assert name == name[..last] + [name[last]];
    }
  }

  /** `extract_date_from_url`: the date of the URL's last path component. */
  function ExtractDateFromUrl(url: string): string {
    ExtractDate(BaseName(url))
  }

  /** `max_bytes`: how much of a downloaded file is read when looking for its date. */
  const MaxHead: nat := 256 * 1024

  /**
   * `f.read(max_bytes)`: the first `MaxHead` characters of the file, all of
   * it when it is shorter.
   */
  function Head(text: string): (h: string)
    ensures |h| <= MaxHead && h <= text
    ensures |text| <= MaxHead <==> h == text
  {
    if |text| <= MaxHead then text else text[..MaxHead]
  }

  /**
   * `detect_file_date(path, url)`, `file` being the decoded file, or None
   * when reading it fails: the URL's date when it has one, else the date
   * found in the file's first `MaxHead` characters.
   */
  function DetectFileDate(url: string, file: Option<string>): string {
    var d := ExtractDateFromUrl(url);
    if d != "" then d
    else match file
      case None => ""
      case Some(text) => ExtractDate(Head(text))
  }

  /**
   * The file is consulted only when the URL yields "": with a URL date the
   * result does not depend on the file at all. A read error gives "", only
   * the file's first `MaxHead` characters are searched, and what is
   * returned is always "" or a YYYY-MM-DD calendar date. Only the last path
   * component of the URL matters.
   */
  lemma DetectFileDateSpec(url: string, head: Option<string>, other: Option<string>, dir: string)
    ensures var r := DetectFileDate(url, head);
      && (ExtractDateFromUrl(url) != "" ==> r == ExtractDateFromUrl(url) && r == DetectFileDate(url, other))
      && (ExtractDateFromUrl(url) == "" && head.None? ==> r == "")
      && (ExtractDateFromUrl(url) == "" && head.Some? ==> r == ExtractDate(Head(head.value)))
      && (r == "" || IsIsoDate(r))
      && ExtractDateFromUrl(dir + "/" + BaseName(url)) == ExtractDateFromUrl(url)
  {
    ExtractDateSpec(BaseName(url));
    if head.Some? {
      ExtractDateSpec(Head(head.value));
    }
    BaseNameOfChild(dir, BaseName(url));
  }

  // ------------------------------------------------------- range folders

  /** `f"{from_date}_to_{to_date}"`, the name of a download folder. */
  function RangeName(from: string, to: string): string {
    from + "_to_" + to
  }

  /** `date_suffix`: the single date when the range is one day, else the range name. */
  function DateSuffix(from: string, to: string): string {
    if from == to then from else RangeName(from, to)
  }

  /** For YYYY-MM-DD dates the suffix determines the range it was made from. */
  lemma DateSuffixDetermines(a: string, b: string, c: string, d: string)
    requires DigitShape(a) && DigitShape(b) && DigitShape(c) && DigitShape(d)
    requires DateSuffix(a, b) == DateSuffix(c, d)
    ensures a == c && b == d
  {
    var s := DateSuffix(a, b);
    if a == b {
      assert |s| == 10;
    } else {
      assert |s| == 24;
      assert c != d;
      assert a == s[..10] == c;
      assert b == s[14..] == d;
    }
  }

  /** `^\d{4}-\d{2}-\d{2}_to_\d{4}-\d{2}-\d{2}`, the whole name. */
  predicate RangeShape(s: string) {
    |s| == 24 && DigitShape(s[..10]) && s[10..14] == "_to_" && DigitShape(s[14..])
  }

  /**
   * `FOLDER_NAME_PATTERN.match(name)`: the range shape, optionally followed
   * by a single "\n", since `$` also matches just before a final line break.
   */
  predicate FolderNameMatches(name: string) {
    RangeShape(name) || (|name| == 25 && name[24] == '\n' && RangeShape(name[..24]))
  }

  /**
   * A name passes the watchers' check exactly when it is the range name of
   * two `\d{4}-\d{2}-\d{2}` texts, with possibly a "\n" after it; so every
   * download folder named from two YYYY-MM-DD dates passes.
   */
  lemma FolderNameMatchesRange(name: string)
    ensures FolderNameMatches(name) <==>
      exists from, to :: DigitShape(from) && DigitShape(to) && (name == RangeName(from, to) || name == RangeName(from, to) + "\n")
  {
    if FolderNameMatches(name) {
      var core := name[..24];
      assert RangeName(core[..10], core[14..]) == core;
      if RangeShape(name) {
        assert core == name;
      } else {
        assert name == core + "\n";
      }
    }
    if exists from, to :: DigitShape(from) && DigitShape(to) && (name == RangeName(from, to) || name == RangeName(from, to) + "\n") {
      var from, to :| DigitShape(from) && DigitShape(to) && (name == RangeName(from, to) || name == RangeName(from, to) + "\n");
      var core := RangeName(from, to);
      assert core[..10] == from && core[10..14] == "_to_" && core[14..] == to;
      if name != core {
        assert name[..24] == core;
      }
    }
  }
}
