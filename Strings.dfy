/**
 * The pieces of Python's `str` that the scripts rely on: whitespace and
 * `strip`, ASCII case mapping, `count`, `replace`, `split`/`join`, decimal
 * rendering of integers and the code-point ordering that `sorted` uses.
 */
module Strings {

  /** `str.isspace()`, which is also what `\s` matches in a `str` pattern. */
  predicate IsSpace(c: char) {
    (c <= ' ' && (c == ' ' || '\t' <= c <= '\r' || '\U{1C}' <= c))
    || ('\U{85}' <= c && (c == '\U{85}' || c == '\U{A0}' || c == '\U{1680}'
        || ('\U{2000}' <= c <= '\U{200A}') || c == '\U{2028}' || c == '\U{2029}'
        || c == '\U{202F}' || c == '\U{205F}' || c == '\U{3000}'))
  }

  predicate IsDigit(c: char) { '0' <= c <= '9' }

  predicate IsAsciiLetter(c: char) { ('a' <= c <= 'z') || ('A' <= c <= 'Z') }

  /** Word characters for a `\b` boundary, restricted to ASCII. */
  predicate IsWordChar(c: char) { IsAsciiLetter(c) || IsDigit(c) || c == '_' }

  predicate AllDigits(s: string) { forall i :: 0 <= i < |s| ==> IsDigit(s[i]) }

  predicate StartsWith(s: string, p: string) { |p| <= |s| && s[..|p|] == p }

  predicate EndsWith(s: string, p: string) { |p| <= |s| && s[|s| - |p|..] == p }

  /** `p` occurs in `s` starting at position `i`. */
  predicate OccursAt(s: string, p: string, i: int) {
    0 <= i && i + |p| <= |s| && s[i..i + |p|] == p
  }

  ghost predicate Contains(s: string, p: string) {
    exists i :: OccursAt(s, p, i)
  }

  // ---------------------------------------------------------------- strip

  function LStrip(s: string): (r: string)
    ensures |r| <= |s|
    ensures r == [] || !IsSpace(r[0])
  {
    if |s| > 0 && IsSpace(s[0]) then LStrip(s[1..]) else s
  }

  function RStrip(s: string): (r: string)
    ensures |r| <= |s|
    ensures r == [] || !IsSpace(r[|r| - 1])
  {
    if |s| > 0 && IsSpace(s[|s| - 1]) then RStrip(s[..|s| - 1]) else s
  }

  /** `lstrip` keeps a suffix. */
  lemma {:induction false} LStripSlice(s: string)
    ensures LStrip(s) == s[|s| - |LStrip(s)|..]
    decreases |s|
  {
    if |s| > 0 && IsSpace(s[0]) {
      LStripSlice(s[1..]);
    }
  }

  /** `rstrip` keeps a prefix. */
  lemma {:induction false} RStripSlice(s: string)
    ensures RStrip(s) == s[..|RStrip(s)|]
    decreases |s|
  {
    if |s| > 0 && IsSpace(s[|s| - 1]) {
      RStripSlice(s[..|s| - 1]);
    }
  }

  lemma {:induction false} LStripSpaces(s: string)
    ensures forall i :: 0 <= i < |s| - |LStrip(s)| ==> IsSpace(s[i])
    decreases |s|
  {
    if |s| > 0 && IsSpace(s[0]) {
      LStripSpaces(s[1..]);
    }
  }

  lemma {:induction false} RStripSpaces(s: string)
    ensures forall i :: |RStrip(s)| <= i < |s| ==> IsSpace(s[i])
    decreases |s|
  {
    if |s| > 0 && IsSpace(s[|s| - 1]) {
      RStripSpaces(s[..|s| - 1]);
    }
  }

  /** How many leading characters `strip` drops. */
  function StripOffset(s: string): nat
  {
    |s| - |LStrip(s)|
  }

  /** `str.strip()` with no argument: the slice between the outer whitespace runs. */
  function Strip(s: string): (r: string)
    ensures r == [] || (!IsSpace(r[0]) && !IsSpace(r[|r| - 1]))
    ensures |r| <= |s|
  {
    RStripSlice(LStrip(s));
    RStrip(LStrip(s))
  }

  /** `strip` keeps a slice of the string. */
  lemma StripSlice(s: string)
    ensures StripOffset(s) + |Strip(s)| <= |s| && Strip(s) == s[StripOffset(s)..StripOffset(s) + |Strip(s)|]
  {
    LStripSlice(s);
    RStripSlice(LStrip(s));
  }

  /** What `strip` removes is whitespace. */
  lemma StripRemovesSpace(s: string)
    ensures forall i :: 0 <= i < StripOffset(s) ==> IsSpace(s[i])
    ensures forall i :: StripOffset(s) + |Strip(s)| <= i < |s| ==> IsSpace(s[i])
  {
    var l := LStrip(s);
    var off := StripOffset(s);
    StripSlice(s);
    LStripSlice(s);
    LStripSpaces(s);
    RStripSpaces(l);
    forall i | off + |Strip(s)| <= i < |s|
      ensures IsSpace(s[i])
    {
      assert s[i] == l[i - off];
    }
  }

  lemma StripUnchanged(s: string)
    requires s == [] || (!IsSpace(s[0]) && !IsSpace(s[|s| - 1]))
    ensures Strip(s) == s
  {
  }

  lemma StripIdempotent(s: string)
    ensures Strip(Strip(s)) == Strip(s)
  {
    StripUnchanged(Strip(s));
  }

  /** Every character is whitespace exactly when `strip` leaves nothing. */
  lemma {:induction false} StripEmpty(s: string)
    ensures Strip(s) == [] <==> forall i :: 0 <= i < |s| ==> IsSpace(s[i])
  {
    StripRemovesSpace(s);
    StripSlice(s);
    if Strip(s) == [] {
    } else {
      assert s[StripOffset(s)] == Strip(s)[0];
    }
  }

  // ------------------------------------------------------------ case maps

  function LowerChar(c: char): char {
    if 'A' <= c <= 'Z' then (c as int + 32) as char else c
  }

  function UpperChar(c: char): char {
    if 'a' <= c <= 'z' then (c as int - 32) as char else c
  }

  /** `str.lower()` on the ASCII range; other characters are kept. */
  function Lower(s: string): (r: string)
    ensures |r| == |s| && forall i :: 0 <= i < |s| ==> r[i] == LowerChar(s[i])
  {
    seq(|s|, i requires 0 <= i < |s| => LowerChar(s[i]))
  }

  /** `str.upper()` on the ASCII range; other characters are kept. */
  function Upper(s: string): (r: string)
    ensures |r| == |s| && forall i :: 0 <= i < |s| ==> r[i] == UpperChar(s[i])
  {
    seq(|s|, i requires 0 <= i < |s| => UpperChar(s[i]))
  }

  /** Text without upper-case ASCII letters is its own lower-case form. */
  lemma LowerKeeps(s: string)
    requires forall i :: 0 <= i < |s| ==> !('A' <= s[i] <= 'Z')
    ensures Lower(s) == s
  {
  }

  /**
   * Lower-casing is idempotent, leaves no ASCII capital behind and forgets
   * an earlier upper-casing: names that differ only in case fold together.
   */
  lemma LowerFolds(s: string)
    ensures Lower(Lower(s)) == Lower(s)
    ensures forall i :: 0 <= i < |s| ==> !('A' <= Lower(s)[i] <= 'Z')
    ensures Lower(Upper(s)) == Lower(s)
  {
  }

  /**
   * Upper-casing is idempotent, leaves no ASCII small letter behind and
   * forgets an earlier lower-casing.
   */
  lemma UpperFolds(s: string)
    ensures Upper(Upper(s)) == Upper(s)
    ensures forall i :: 0 <= i < |s| ==> !('a' <= Upper(s)[i] <= 'z')
    ensures Upper(Lower(s)) == Upper(s)
  {
  }

  // ------------------------------------------------------- count, replace

  /**
   * `s.count(p)`: occurrences found scanning left to right, each search
   * resuming after the previous occurrence. An empty `p` counts every
   * position, `|s| + 1`, as Python does.
   */
  function Count(s: string, p: string): nat
    decreases |s|
  {
    if |p| == 0 then |s| + 1
    else if |s| < |p| then 0
    else if s[..|p|] == p then 1 + Count(s[|p|..], p)
    else Count(s[1..], p)
  }

  /** A string without `p` in it has no occurrences, and conversely. */
  lemma {:induction false} CountZero(s: string, p: string)
    requires |p| > 0
    ensures Count(s, p) == 0 <==> !Contains(s, p)
  {
    if |s| < |p| {
      assert forall i :: !OccursAt(s, p, i);
    } else if s[..|p|] == p {
      assert OccursAt(s, p, 0);
    } else {
      CountZero(s[1..], p);
      if Contains(s, p) {
        var i :| OccursAt(s, p, i);
        assert i != 0;
        assert OccursAt(s[1..], p, i - 1);
      }
      if Contains(s[1..], p) {
        var i :| OccursAt(s[1..], p, i);
        assert OccursAt(s, p, i + 1);
      }
    }
  }

  /** `s.replace(p, r)` for a non-empty `p`: leftmost, non-overlapping. */
  function Replace(s: string, p: string, r: string): string
    requires |p| > 0
    decreases |s|
  {
    if |s| < |p| then s
    else if s[..|p|] == p then r + Replace(s[|p|..], p, r)
    else [s[0]] + Replace(s[1..], p, r)
  }

  /** Each replaced occurrence changes the length by `|r| - |p|`. */
  lemma {:induction false} ReplaceLength(s: string, p: string, r: string)
    requires |p| > 0
    ensures |Replace(s, p, r)| + Count(s, p) * |p| == |s| + Count(s, p) * |r|
    decreases |s|
  {
    if |s| < |p| {
      assert Count(s, p) == 0;
    } else if s[..|p|] == p {
      var t := s[|p|..];
      var c := Count(t, p);
      ReplaceLength(t, p, r);
      assert |Replace(t, p, r)| + c * |p| == |t| + c * |r|;
      assert Replace(s, p, r) == r + Replace(t, p, r);
      assert Count(s, p) == 1 + c;
      MulDistrib(c, |p|);
      MulDistrib(c, |r|);
    } else {
      ReplaceLength(s[1..], p, r);
      assert Replace(s, p, r) == [s[0]] + Replace(s[1..], p, r);
      assert Count(s, p) == Count(s[1..], p);
    }
  }

  lemma MulDistrib(c: nat, k: nat)
    ensures (1 + c) * k == k + c * k
  {
  }

  /** `''.join(c for c in s if c not in cs)`, i.e. repeated `replace(c, "")`. */
  function RemoveChars(s: string, cs: set<char>): (r: string)
    ensures forall i :: 0 <= i < |r| ==> r[i] !in cs
    ensures |r| <= |s|
  {
    if |s| == 0 then []
    else if s[0] in cs then RemoveChars(s[1..], cs)
    else [s[0]] + RemoveChars(s[1..], cs)
  }

  lemma {:induction false} RemoveCharsTwice(s: string, a: set<char>, b: set<char>)
    ensures RemoveChars(RemoveChars(s, a), b) == RemoveChars(s, a + b)
  {
    if |s| > 0 {
      RemoveCharsTwice(s[1..], a, b);
    }
  }

  /** Removing characters none of which occur changes nothing. */
  lemma {:induction false} RemoveCharsAbsent(s: string, cs: set<char>)
    requires forall i :: 0 <= i < |s| ==> s[i] !in cs
    ensures RemoveChars(s, cs) == s
  {
    if |s| > 0 {
      RemoveCharsAbsent(s[1..], cs);
    }
  }

  // ---------------------------------------------------------- split, join

  /** `s.split(c)` for a one-character separator: never an empty list. */
  function Split(s: string, c: char): (parts: seq<string>)
    ensures |parts| > 0
    ensures forall k :: 0 <= k < |parts| ==> c !in parts[k]
    ensures forall k, x :: 0 <= k < |parts| && x in parts[k] ==> x in s
    decreases |s|
  {
    if |s| == 0 then [""]
    else
      var rest := Split(s[1..], c);
      assert forall x :: x in s[1..] ==> x in s;
      if s[0] == c then
        var parts := [""] + rest;
        assert forall k :: 1 <= k < |parts| ==> parts[k] == rest[k - 1];
        parts
      else
        var parts := [[s[0]] + rest[0]] + rest[1..];
        assert forall k :: 1 <= k < |parts| ==> parts[k] == rest[k];
        parts
  }

  /** `sep.join(parts)`. */
  function Join(parts: seq<string>, sep: string): string
    decreases |parts|
  {
    if |parts| == 0 then ""
    else if |parts| == 1 then parts[0]
    else parts[0] + sep + Join(parts[1..], sep)
  }

  /** Splitting on a character and joining back with it is the identity. */
  lemma {:induction false} JoinSplit(s: string, c: char)
    ensures Join(Split(s, c), [c]) == s
    decreases |s|
  {
    if |s| > 0 {
      var rest := Split(s[1..], c);
      JoinSplit(s[1..], c);
      if s[0] == c {
        assert Split(s, c) == [""] + rest;
      } else {
        var parts := [[s[0]] + rest[0]] + rest[1..];
        if |rest| == 1 {
          assert Join(parts, [c]) == [s[0]] + rest[0];
        } else {
          assert Join(rest, [c]) == rest[0] + [c] + Join(rest[1..], [c]);
          assert parts[1..] == rest[1..];
        }
      }
    }
  }

  /** Joining pieces that do not contain the separator and splitting again recovers them. */
  lemma {:induction false} SplitJoin(parts: seq<string>, c: char)
    requires |parts| > 0
    requires forall k :: 0 <= k < |parts| ==> c !in parts[k]
    ensures Split(Join(parts, [c]), c) == parts
    decreases |parts|, |parts[0]|
  {
    if |parts[0]| > 0 {
      var head := parts[0];
      var tail := [head[1..]] + parts[1..];
      assert Join(parts, [c]) == [head[0]] + Join(tail, [c]) by {
        if |parts| > 1 {
          assert parts[1..] == tail[1..];
          assert Join(tail, [c]) == head[1..] + [c] + Join(parts[1..], [c]);
        }
      }
      assert head[0] in head;
      assert forall k :: 0 <= k < |tail| ==> c !in tail[k] by {
        assert forall x :: x in head[1..] ==> x in head;
      }
      SplitJoin(tail, c);
      assert [head[0]] + tail[0] == head;
    } else if |parts| > 1 {
      assert Join(parts, [c]) == [c] + Join(parts[1..], [c]);
      SplitJoin(parts[1..], c);
    }
  }

  /** Every character of a join comes from a piece or from the separator. */
  lemma {:induction false} JoinChars(parts: seq<string>, sep: string, x: char)
    requires x in Join(parts, sep)
    ensures x in sep || exists k :: 0 <= k < |parts| && x in parts[k]
    decreases |parts|
  {
    if |parts| > 1 {
      var rest := Join(parts[1..], sep);
      if x !in parts[0] && x !in sep {
        assert x in rest;
        JoinChars(parts[1..], sep, x);
        var k :| 0 <= k < |parts[1..]| && x in parts[1..][k];
        assert x in parts[k + 1];
      }
    }
  }

  /** Concatenation of a list of strings, `''.join(lines)`. */
  function Concat(ls: seq<string>): string
    decreases |ls|
  {
    if |ls| == 0 then "" else ls[0] + Concat(ls[1..])
  }

  lemma {:induction false} ConcatAppend(a: seq<string>, b: seq<string>)
    ensures Concat(a + b) == Concat(a) + Concat(b)
    decreases |a|
  {
    if |a| == 0 {
      assert a + b == b;
    } else {
      assert (a + b)[0] == a[0];
      assert (a + b)[1..] == a[1..] + b;
      ConcatAppend(a[1..], b);
    }
  }

  // ------------------------------------------------------ decimal numbers

  function DigitChar(d: nat): char
    requires d < 10
  {
    ('0' as int + d) as char
  }

  function DigitValue(c: char): nat
    requires IsDigit(c)
  {
    c as int - '0' as int
  }

  /** `str(n)` for a natural number. */
  function NatToStr(n: nat): (s: string)
    ensures |s| > 0 && AllDigits(s)
    decreases n
  {
    if n < 10 then [DigitChar(n)] else NatToStr(n / 10) + [DigitChar(n % 10)]
  }

  /** `str(i)` for any integer. */
  function IntToStr(i: int): string {
    if i < 0 then "-" + NatToStr(-i) else NatToStr(i)
  }

  /** The value of a string of decimal digits, most significant first. */
  function DigitsValue(s: string): nat
    requires AllDigits(s)
    decreases |s|
  {
    if |s| == 0 then 0 else 10 * DigitsValue(s[..|s| - 1]) + DigitValue(s[|s| - 1])
  }

  /** Reading back what `str(n)` writes gives `n`. */
  lemma {:induction false} NatToStrValue(n: nat)
    ensures DigitsValue(NatToStr(n)) == n
    decreases n
  {
    if n >= 10 {
      NatToStrValue(n / 10);
      var s := NatToStr(n);
      assert s[..|s| - 1] == NatToStr(n / 10);
    }
  }

  lemma NatToStrInjective(m: nat, n: nat)
    requires NatToStr(m) == NatToStr(n)
    ensures m == n
  {
    NatToStrValue(m);
    NatToStrValue(n);
  }

  /** `f"{n:02d}"`: at least two digits, zero-padded. */
  function Pad2(n: nat): (s: string)
    ensures |s| >= 2 && AllDigits(s)
  {
    if n < 10 then "0" + NatToStr(n) else NatToStr(n)
  }

  // ------------------------------------------------------------- ordering

  /** Python's `<=` on `str`: code point by code point, a prefix first. */
  predicate LexLe(a: string, b: string)
    decreases |a|
  {
    |a| == 0 || (|b| > 0 && (a[0] < b[0] || (a[0] == b[0] && LexLe(a[1..], b[1..]))))
  }

  lemma {:induction false} LexLeTotal(a: string, b: string)
    ensures LexLe(a, b) || LexLe(b, a)
    decreases |a|
  {
    if |a| > 0 && |b| > 0 && a[0] == b[0] {
      LexLeTotal(a[1..], b[1..]);
    }
  }

  lemma {:induction false} LexLeTrans(a: string, b: string, c: string)
    requires LexLe(a, b) && LexLe(b, c)
    ensures LexLe(a, c)
    decreases |a|
  {
    if |a| > 0 && a[0] == b[0] && b[0] == c[0] {
      LexLeTrans(a[1..], b[1..], c[1..]);
    }
  }

  lemma {:induction false} LexLeRefl(a: string)
    ensures LexLe(a, a)
    decreases |a|
  {
    if |a| > 0 {
      LexLeRefl(a[1..]);
    }
  }

  /** Two strings each at most the other are equal, so a minimum is unique. */
  lemma {:induction false} LexLeAntisym(a: string, b: string)
    requires LexLe(a, b) && LexLe(b, a)
    ensures a == b
    decreases |a|
  {
    if |a| > 0 {
      LexLeAntisym(a[1..], b[1..]);
      assert a == [a[0]] + a[1..] && b == [b[0]] + b[1..];
    }
  }
}
