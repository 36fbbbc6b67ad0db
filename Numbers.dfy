/**
 * The numeric normaliser `parse_float` and the two-decimal formatter `fmt2`.
 * Numbers are exact reals here: binary floating point is not modelled.
 */
module Numbers {
  import opened Wrappers
  import opened Strings

  /** Removed anywhere before conversion: baht, dollar, euro, space, no-break space. */
  const Symbols: set<char> := {'\U{E3F}', '$', '\U{20AC}', ' ', '\U{A0}'}

  /** An unsigned decimal numeral: digits, optionally a point and more digits, some digit somewhere. */
  function ParseUnsigned(t: string): Option<real> {
    ParseParts(Split(t, '.'))
  }

  /** The numeral by the pieces it splits into at its points. */
  function ParseParts(parts: seq<string>): Option<real> {
    if |parts| == 1 && |parts[0]| > 0 && AllDigits(parts[0]) then
      Some(DigitsValue(parts[0]) as real)
    else if |parts| == 2 && AllDigits(parts[0]) && AllDigits(parts[1]) && |parts[0]| + |parts[1]| > 0 then
      Some(DigitsValue(parts[0]) as real + Fraction(parts[1]))
    else None
  }

  /** The value of the digits after the point: each digit counts a tenth of the one before it. */
  function Fraction(digits: string): real
    requires AllDigits(digits)
    decreases |digits|
  {
    if |digits| == 0 then 0.0
    else (DigitValue(digits[0]) as real + Fraction(digits[1..])) / 10.0
  }

  /** `float(t)` for plain decimal text: surrounding whitespace and one sign allowed. */
  function PyFloat(t: string): Option<real> {
    var u := Strip(t);
    if |u| > 0 && u[0] == '-' then Negate(ParseUnsigned(u[1..]))
    else if |u| > 0 && u[0] == '+' then ParseUnsigned(u[1..])
    else ParseUnsigned(u)
  }

  /** Accounting negatives are written "(…)". */
  predicate Parenthesized(t: string) {
    |t| > 0 && t[0] == '(' && t[|t| - 1] == ')'
  }

  function Negate(v: Option<real>): Option<real> {
    match v
    case None => None
    case Some(x) => Some(-x)
  }

  /** Deletes the symbols, then the commas, then converts. */
  function Convert(t: string): Option<real> {
    PyFloat(RemoveChars(RemoveChars(t, Symbols), {','}))
  }

  /** `parse_float` after the strip: blank, "(…)" negated, or plain. */
  function ParseStripped(t: string): Option<real> {
    if t == "" then None
    else if Parenthesized(t) then Negate(Convert(t[1..|t| - 1]))
    else Convert(t)
  }

  /**
   * `parse_float`: None for None or blank text; "(…)" negates (decided
   * before symbols go); currency symbols, spaces and then commas are
   * deleted; None when what is left is not a number.
   */
  function ParseFloat(s: Option<string>): (r: Option<real>)
    ensures s.None? ==> r.None?
    ensures s.Some? && Strip(s.value) == "" ==> r.None?
  {
    match s
    case None => None
    case Some(raw) => ParseStripped(Strip(raw))
  }

  /** What `parse_float` hands to `float()` for text that is not parenthesized. */
  function Cleaned(t: string): string {
    RemoveChars(t, Symbols + {','})
  }

  /** A value wrapped in parentheses parses as the negation of the value itself. */
  lemma ParseFloatParens(s: string)
    requires s != [] && !IsSpace(s[0]) && !IsSpace(s[|s| - 1]) && !Parenthesized(s)
    ensures ParseFloat(Some("(" + s + ")")) == Negate(ParseFloat(Some(s)))
  {
    var w := "(" + s + ")";
    StripUnchanged(w);
    StripUnchanged(s);
    assert w[1..|w| - 1] == s;
    assert Parenthesized(w);
    assert ParseFloat(Some(s)) == ParseStripped(s) == Convert(s);
    assert ParseFloat(Some(w)) == ParseStripped(w) == Negate(Convert(s));
  }

  /**
   * Symbols and commas may stand anywhere between the first and last digit:
   * two texts that agree once they are deleted parse alike.
   */
  lemma ParseFloatIgnoresSymbols(s: string, t: string)
    requires |s| > 0 && IsDigit(s[0]) && IsDigit(s[|s| - 1])
    requires |t| > 0 && IsDigit(t[0]) && IsDigit(t[|t| - 1])
    requires Cleaned(s) == Cleaned(t)
    ensures ParseFloat(Some(s)) == ParseFloat(Some(t))
  {
    PlainParse(s);
    PlainParse(t);
  }

  /** Text that starts and ends with a digit goes straight to conversion. */
  lemma PlainParse(s: string)
    requires |s| > 0 && IsDigit(s[0]) && IsDigit(s[|s| - 1])
    ensures ParseFloat(Some(s)) == PyFloat(Cleaned(s))
  {
    assert !IsSpace(s[0]) && !IsSpace(s[|s| - 1]);
    StripUnchanged(s);
    assert !Parenthesized(s);
    assert ParseStripped(s) == Convert(s);
    RemoveCharsTwice(s, Symbols, {','});
  }

  /**
   * `parse_float` on any text: strip it; blank text is no number; text
   * wrapped in "(…)" is the negated number of what is inside, once symbols
   * and commas are deleted; any other text is the number its cleaned form
   * converts to.
   */
  lemma ParseFloatSpec(s: string)
    ensures var u := Strip(s);
      ParseFloat(Some(s))
      == if u == "" then None
         else if Parenthesized(u) then Negate(PyFloat(Cleaned(u[1..|u| - 1])))
         else PyFloat(Cleaned(u))
  {
    var u := Strip(s);
    if u != "" {
      if Parenthesized(u) {
        RemoveCharsTwice(u[1..|u| - 1], Symbols, {','});
      } else {
        RemoveCharsTwice(u, Symbols, {','});
      }
    }
  }

  /** Digits with no point split into themselves alone. */
  lemma SplitWhole(w: string)
    requires AllDigits(w)
    ensures Split(w, '.') == [w]
  {
    assert '.' !in w by {
      assert forall i :: 0 <= i < |w| ==> IsDigit(w[i]);
    }
    SplitJoin([w], '.');
  }

  /** Deleting characters from a text that starts with `c`. */
  lemma CleanedCons(c: char, t: string, cs: set<char>)
    ensures RemoveChars([c] + t, cs) == if c in cs then RemoveChars(t, cs) else [c] + RemoveChars(t, cs)
  {
    assert ([c] + t)[1..] == t;
  }

  /** A run of digits converts to its value. */
  lemma PyFloatWhole(w: string)
    requires |w| > 0 && AllDigits(w)
    ensures PyFloat(w) == Some(DigitsValue(w) as real)
  {
    assert IsDigit(w[0]) && IsDigit(w[|w| - 1]);
    StripUnchanged(w);
    assert w[0] != '-' && w[0] != '+';
    SplitWhole(w);
    assert ParseUnsigned(w) == ParseParts([w]);
  }

  /** Digits, a point and two digits convert to whole + cents / 100. */
  lemma PyFloatFixed(w: string, c: string)
    requires |w| > 0 && AllDigits(w) && |c| == 2 && AllDigits(c)
    ensures PyFloat(w + "." + c) == Some(FixedValue(w, c))
  {
    var t := w + "." + c;
    assert t[0] == w[0] && t[|t| - 1] == c[1];
    StripUnchanged(t);
    SplitFixed(w, c);
    ParseFixed(w, c);
  }

  /** Deleting characters piece by piece. */
  lemma {:induction false} RemoveCharsAppend(a: string, b: string, cs: set<char>)
    ensures RemoveChars(a + b, cs) == RemoveChars(a, cs) + RemoveChars(b, cs)
    decreases |a|
  {
    if |a| == 0 {
      assert a + b == b;
    } else {
      assert (a + b)[0] == a[0] && (a + b)[1..] == a[1..] + b;
      RemoveCharsAppend(a[1..], b, cs);
    }
  }

  /** Digits are never deleted. */
  lemma DigitsKept(w: string)
    requires AllDigits(w)
    ensures Cleaned(w) == w
  {
    RemoveCharsAbsent(w, Symbols + {','});
  }

  /** What the cleaning keeps of "฿" + w1 + "," + w2. */
  lemma CleanedBaht(w1: string, w2: string)
    requires AllDigits(w1) && AllDigits(w2)
    ensures Cleaned("\U{E3F}" + w1 + "," + w2) == w1 + w2
  {
    var cs := Symbols + {','};
    RemoveCharsAppend("\U{E3F}" + w1 + ",", w2, cs);
    RemoveCharsAppend("\U{E3F}" + w1, ",", cs);
    RemoveCharsAppend("\U{E3F}", w1, cs);
    DigitsKept(w1);
    DigitsKept(w2);
    assert RemoveChars("\U{E3F}", cs) == "";
    assert RemoveChars(",", cs) == "";
  }

  /** A baht amount with a thousands separator, "฿1,000" say, is the number of its digits. */
  lemma ParseFloatBaht(w1: string, w2: string)
    requires |w1| > 0 && AllDigits(w1) && AllDigits(w2)
    ensures ParseFloat(Some("\U{E3F}" + w1 + "," + w2)) == Some(DigitsValue(w1 + w2) as real)
  {
    var s := "\U{E3F}" + w1 + "," + w2;
    assert s[0] == '\U{E3F}' && !Parenthesized(s);
    assert !IsSpace(s[|s| - 1]) by {
      if |w2| > 0 {
        assert s[|s| - 1] == w2[|w2| - 1];
      } else {
        assert s[|s| - 1] == ',';
      }
    }
    StripUnchanged(s);
    ParseFloatSpec(s);
    CleanedBaht(w1, w2);
    DigitsJoin(w1, w2);
    PyFloatWhole(w1 + w2);
  }

  /** Two runs of digits make a run of digits. */
  lemma DigitsJoin(a: string, b: string)
    requires AllDigits(a) && AllDigits(b)
    ensures AllDigits(a + b)
  {
    forall i | 0 <= i < |a + b| ensures IsDigit((a + b)[i]) {
      if i < |a| {
        assert (a + b)[i] == a[i];
      } else {
        assert (a + b)[i] == b[i - |a|];
      }
    }
  }

  /** What the cleaning keeps of w1 + "," + w2 + "." + c. */
  lemma CleanedGrouped(w1: string, w2: string, c: string)
    requires AllDigits(w1) && AllDigits(w2) && AllDigits(c)
    ensures Cleaned(w1 + "," + w2 + "." + c) == (w1 + w2) + "." + c
  {
    var cs := Symbols + {','};
    var g := w1 + "," + w2;
    RemoveCharsAppend(g + ".", c, cs);
    RemoveCharsAppend(g, ".", cs);
    CleanedComma(w1, w2);
    DigitsKept(c);
    assert RemoveChars(".", cs) == ".";
  }

  /** What the cleaning keeps of w1 + "," + w2. */
  lemma CleanedComma(w1: string, w2: string)
    requires AllDigits(w1) && AllDigits(w2)
    ensures Cleaned(w1 + "," + w2) == w1 + w2
  {
    var cs := Symbols + {','};
    RemoveCharsAppend(w1 + ",", w2, cs);
    RemoveCharsAppend(w1, ",", cs);
    DigitsKept(w1);
    DigitsKept(w2);
    assert RemoveChars(",", cs) == "";
  }

  /** Any text in parentheses is the negated number of what its inside cleans to. */
  lemma ParenParse(t: string)
    ensures ParseFloat(Some("(" + t + ")")) == Negate(PyFloat(Cleaned(t)))
  {
    var s := "(" + t + ")";
    assert s[0] == '(' && s[|s| - 1] == ')';
    StripUnchanged(s);
    assert Parenthesized(s) && s[1..|s| - 1] == t;
    ParseFloatSpec(s);
  }

  /** Grouped digits with two decimals clean to the plain numeral and convert to its value. */
  lemma GroupedParse(w1: string, w2: string, c: string)
    requires |w1| > 0 && AllDigits(w1) && AllDigits(w2) && |c| == 2 && AllDigits(c)
    ensures PyFloat(Cleaned(w1 + "," + w2 + "." + c))
         == Some(FixedValue(w1 + w2, c))
  {
    var t, n := w1 + "," + w2 + "." + c, w1 + w2;
    CleanedGrouped(w1, w2, c);
    DigitsJoin(w1, w2);
    FixedAfterCleaning(t, n, c);
  }

  /** Text that cleans to digits, a point and two digits converts to whole + cents / 100. */
  lemma FixedAfterCleaning(t: string, n: string, c: string)
    requires |n| > 0 && AllDigits(n) && |c| == 2 && AllDigits(c) && Cleaned(t) == n + "." + c
    ensures PyFloat(Cleaned(t)) == Some(FixedValue(n, c))
  {
    PyFloatFixed(n, c);
  }

  /**
   * An accounting negative with a thousands separator and cents,
   * "(1,234.50)" say, is the negated number of its digits.
   */
  lemma ParseFloatAccounting(w1: string, w2: string, c: string)
    requires |w1| > 0 && AllDigits(w1) && AllDigits(w2) && |c| == 2 && AllDigits(c)
    ensures AllDigits(w1 + w2)
    ensures ParseFloat(Some("(" + (w1 + "," + w2 + "." + c) + ")"))
         == Some(-FixedValue(w1 + w2, c))
  {
    DigitsJoin(w1, w2);
    CleanedGrouped(w1, w2, c);
    NegatedFixed(w1 + "," + w2 + "." + c, w1 + w2, c);
  }

  /** Text in parentheses whose inside cleans to n.cc is -(n + cc / 100). */
  lemma NegatedFixed(t: string, n: string, c: string)
    requires |n| > 0 && AllDigits(n) && |c| == 2 && AllDigits(c) && Cleaned(t) == n + "." + c
    ensures ParseFloat(Some("(" + t + ")")) == Some(-FixedValue(n, c))
  {
    FixedAfterCleaning(t, n, c);
    ParenParse(t);
  }

  // ------------------------------------------------------------------ fmt2

  /** `|x|` in hundredths, rounded half up. */
  function Hundredths(x: real): nat {
    var a := if x < 0.0 then -x else x;
    (a * 100.0 + 0.5).Floor
  }

  /** `f"{x:.2f}"`: optional "-", the whole part, ".", two digits. */
  function Fmt2(x: real): string {
    var h := Hundredths(x);
    (if x < 0.0 then "-" else "") + NatToStr(h / 100) + "." + [DigitChar(h % 100 / 10), DigitChar(h % 10)]
  }

  /** The value `Fmt2` displays. */
  function Round2(x: real): real {
    var v := Hundredths(x) as real / 100.0;
    if x < 0.0 then -v else v
  }

  lemma TwoDigits(h: nat)
    ensures AllDigits([DigitChar(h % 100 / 10), DigitChar(h % 10)])
    ensures DigitsValue([DigitChar(h % 100 / 10), DigitChar(h % 10)]) == h % 100
  {
    DigitPair(h % 100 / 10, h % 10);
    LastTwoDigits(h);
  }

  /** Two digit characters read as tens and units. */
  lemma DigitPair(a: nat, b: nat)
    requires a < 10 && b < 10
    ensures AllDigits([DigitChar(a), DigitChar(b)])
    ensures DigitsValue([DigitChar(a), DigitChar(b)]) == 10 * a + b
  {
    var c := [DigitChar(a), DigitChar(b)];
    assert DigitValue(DigitChar(a)) == a && DigitValue(DigitChar(b)) == b;
    assert c[..1] == [DigitChar(a)];
    assert c[..1][..0] == [];
    assert DigitsValue(c[..1]) == a;
  }

  /** The last two decimal digits of `h`. */
  lemma LastTwoDigits(h: nat)
    ensures h % 100 == 10 * (h % 100 / 10) + h % 10
  {
    var q, r := h / 100, h % 100;
    assert h == 10 * (10 * q + r / 10) + r % 10;
  }

  lemma RealSplit(h: nat)
    ensures (h / 100) as real + (h % 100) as real / 100.0 == h as real / 100.0
  {
    var q := h / 100;
    var r := h % 100;
    assert h == 100 * q + r;
    var qr, rr := q as real, r as real;
    assert h as real == 100.0 * qr + rr;
    assert (100.0 * qr + rr) / 100.0 == qr + rr / 100.0;
  }

  /** The value of the numeral `w.c`: the whole part plus the digits after the point in hundredths. */
  function FixedValue(w: string, c: string): real
    requires AllDigits(w) && AllDigits(c)
  {
    DigitsValue(w) as real + DigitsValue(c) as real / 100.0
  }

  /** A whole part and two digits after the point read as whole + cents / 100. */
  lemma ParseFixed(w: string, c: string)
    requires |w| > 0 && AllDigits(w) && |c| == 2 && AllDigits(c)
    ensures ParseParts([w, c]) == Some(FixedValue(w, c))
  {
    Cents(c);
  }

  /** Two digits after the point are hundredths. */
  lemma Cents(c: string)
    requires |c| == 2 && AllDigits(c)
    ensures Fraction(c) == DigitsValue(c) as real / 100.0
  {
    var d0, d1 := DigitValue(c[0]) as real, DigitValue(c[1]) as real;
    assert Fraction(c[1..]) == d1 / 10.0 by {
      assert c[1..][1..] == [];
    }
    assert DigitsValue(c[..1]) as real == d0 by {
      assert c[..1][..0] == [];
    }
    assert DigitsValue(c) as real == 10.0 * d0 + d1;
  }

  /** Digits, a point and digits split at the point into the two runs. */
  lemma SplitFixed(w: string, c: string)
    requires AllDigits(w) && AllDigits(c)
    ensures Split(w + "." + c, '.') == [w, c]
  {
    assert '.' !in w && '.' !in c by {
      assert forall i :: 0 <= i < |w| ==> IsDigit(w[i]);
      assert forall i :: 0 <= i < |c| ==> IsDigit(c[i]);
    }
    assert Join([w, c], ['.']) == w + "." + c by {
      assert [w, c][1..] == [c];
    }
    SplitJoin([w, c], '.');
  }

  /** Text without surrounding whitespace or parentheses goes straight to cleaning. */
  lemma UnwrappedParse(s: string)
    requires |s| > 0 && (s[0] == '-' || IsDigit(s[0])) && IsDigit(s[|s| - 1])
    ensures ParseFloat(Some(s)) == Convert(s)
  {
    assert !IsSpace(s[0]) && !IsSpace(s[|s| - 1]);
    StripUnchanged(s);
    assert !Parenthesized(s);
  }

  /** Text made of digits, points and minus signs is left as is by the cleaning. */
  lemma CleanFixed(s: string)
    requires forall i :: 0 <= i < |s| ==> IsDigit(s[i]) || s[i] == '.' || s[i] == '-'
    ensures Convert(s) == PyFloat(s)
  {
    RemoveCharsAbsent(s, Symbols);
    RemoveCharsAbsent(s, {','});
  }

  /** A leading "-" in front of an unsigned numeral negates it. */
  lemma SignedParse(body: string, neg: bool)
    requires |body| > 0 && IsDigit(body[0]) && IsDigit(body[|body| - 1])
    ensures PyFloat((if neg then "-" else "") + body)
         == if neg then Negate(ParseUnsigned(body)) else ParseUnsigned(body)
  {
    var s := (if neg then "-" else "") + body;
    assert !IsSpace(s[0]) && !IsSpace(s[|s| - 1]);
    StripUnchanged(s);
    if neg {
      assert s[1..] == body;
      assert PyFloat(s) == Negate(ParseUnsigned(body));
    } else {
      assert s == body;
      assert !(s[0] == '-' || s[0] == '+');
      assert PyFloat(s) == ParseUnsigned(body);
    }
  }

  /** The characters `fmt2` writes: digits, one point, perhaps a leading minus. */
  lemma Fmt2Chars(w: string, c: string, neg: bool)
    requires AllDigits(w) && AllDigits(c)
    ensures var s := (if neg then "-" else "") + (w + "." + c);
      forall i :: 0 <= i < |s| ==> IsDigit(s[i]) || s[i] == '.' || s[i] == '-'
  {
    var body := w + "." + c;
    assert forall i :: 0 <= i < |body| ==> IsDigit(body[i]) || body[i] == '.' by {
      forall i | 0 <= i < |body| ensures IsDigit(body[i]) || body[i] == '.' {
        if i < |w| { assert body[i] == w[i]; }
        else if i > |w| { assert body[i] == c[i - |w| - 1]; }
      }
    }
  }

  /** Parsing what `fmt2` writes gives back the rounded value. */
  lemma {:induction false} ParseFmt2(x: real)
    ensures ParseFloat(Some(Fmt2(x))) == Some(Round2(x))
  {
    var h := Hundredths(x);
    var w := NatToStr(h / 100);
    var c := [DigitChar(h % 100 / 10), DigitChar(h % 10)];
    var body := w + "." + c;
    var s := (if x < 0.0 then "-" else "") + body;
    assert s == Fmt2(x);
    TwoDigits(h);
    Fmt2Chars(w, c, x < 0.0);
    NatToStrValue(h / 100);
    RealSplit(h);
    var v := h as real / 100.0;
    calc {
      ParseFloat(Some(s));
      { UnwrappedParse(s); }
      Convert(s);
      { CleanFixed(s); }
      PyFloat(s);
      { SignedParse(body, x < 0.0); }
      if x < 0.0 then Negate(ParseUnsigned(body)) else ParseUnsigned(body);
      { SplitFixed(w, c); }
      if x < 0.0 then Negate(ParseParts([w, c])) else ParseParts([w, c]);
      { ParseFixed(w, c); }
      if x < 0.0 then Negate(Some(v)) else Some(v);
      Some(Round2(x));
    }
  }

  /** Worked example: blank text is no number. */
  lemma ParseFloatBlank()
    ensures ParseFloat(Some(" \t ")) == None
  {
    StripEmpty(" \t ");
  }
}
