/** The Python string operations the script relies on, stated over `seq<char>`:
    `str.isspace`, `in`, `split()`, `strip()`, `splitlines()`, `ljust`, and the
    decimal digit strings that `int()` reads and `f"{x:.1f}"` writes. */
module Text {

  datatype Option<T> = None | Some(value: T)

  /** The characters for which Python's `str.isspace()` holds. They are what
      `split()` and `strip()` remove and what the regex class `\s` matches. */
  predicate IsSpace(c: char) {
    || c == ' '
    || '\t' <= c <= '\r'
    || '\U{1c}' <= c <= '\U{1f}'
    || c == '\U{85}' || c == '\U{a0}' || c == '\U{1680}'
    || '\U{2000}' <= c <= '\U{200a}'
    || c == '\U{2028}' || c == '\U{2029}' || c == '\U{202f}' || c == '\U{205f}' || c == '\U{3000}'
  }

  predicate IsNotSpace(c: char) { !IsSpace(c) }

  /** The characters at which `str.splitlines()` breaks a line. */
  predicate IsLineBreak(c: char) {
    || '\n' <= c <= '\r'
    || '\U{1c}' <= c <= '\U{1e}'
    || c == '\U{85}' || c == '\U{2028}' || c == '\U{2029}'
  }

  predicate IsNotLineBreak(c: char) { !IsLineBreak(c) }

  /** ASCII decimal digits, the class `\d` as this model reads it. */
  predicate IsDigit(c: char) { '0' <= c <= '9' }

  predicate AllDigits(s: string) {
    forall k :: 0 <= k < |s| ==> IsDigit(s[k])
  }

  predicate NoSpace(s: string) {
    forall k :: 0 <= k < |s| ==> !IsSpace(s[k])
  }

  predicate NoLineBreak(s: string) {
    forall k :: 0 <= k < |s| ==> !IsLineBreak(s[k])
  }

  // ---------------------------------------------------------------------------
  // Searching

  /** `pat` occurs in `s` starting at index `i`. */
  predicate OccursAt(s: string, pat: string, i: nat) {
    i + |pat| <= |s| && s[i..i + |pat|] == pat
  }

  /** The leftmost occurrence of `pat` in `s` at or after `from`. */
  function FindFrom(s: string, pat: string, from: nat): (r: Option<nat>)
    decreases |s| - from
    ensures r.Some? ==> from <= r.value && OccursAt(s, pat, r.value)
    ensures forall j :: from <= j && (r.None? || j < r.value) ==> !OccursAt(s, pat, j)
  {
    if |s| < from + |pat| then None
    else if OccursAt(s, pat, from) then Some(from)
    else FindFrom(s, pat, from + 1)
  }

  /** Python's `pat in s`. */
  predicate Contains(s: string, pat: string) {
    FindFrom(s, pat, 0).Some?
  }

  /** `pat in s` holds exactly when `pat` occurs somewhere in `s`. */
  lemma ContainsOccurs(s: string, pat: string)
    ensures Contains(s, pat) <==> exists i :: OccursAt(s, pat, i)
  {
    if Contains(s, pat) {
      assert OccursAt(s, pat, FindFrom(s, pat, 0).value);
    }
  }

  /** The least index in [from, bound) that satisfies `p`: how a regex search
      settles on the leftmost position where its pattern matches. */
  function FirstWhere(bound: nat, from: nat, p: nat -> bool): (r: Option<nat>)
    decreases bound - from
    ensures r.Some? ==> from <= r.value < bound && p(r.value)
    ensures forall j :: from <= j < bound && (r.None? || j < r.value) ==> !p(j)
  {
    if bound <= from then None
    else if p(from) then Some(from)
    else FirstWhere(bound, from + 1, p)
  }

  /** Python's `s.split(c)[0]`: the text before the first `c`, or all of `s`. */
  function Before(s: string, c: char): (r: string)
    ensures |r| <= |s| && r == s[..|r|]
    ensures c !in r
    ensures |r| < |s| ==> s[|r|] == c
  {
    var n := RunLength(s, 0, x => x != c);
    assert forall k :: 0 <= k < n ==> s[k] != c;
    s[..n]
  }

  /** Length of the longest run of characters satisfying `p` that starts at `from`. */
  function RunLength(s: string, from: nat, p: char -> bool): (n: nat)
    requires from <= |s|
    decreases |s| - from
    ensures from + n <= |s|
    ensures forall k :: from <= k < from + n ==> p(s[k])
    ensures from + n < |s| ==> !p(s[from + n])
  {
    if from < |s| && p(s[from]) then 1 + RunLength(s, from + 1, p) else 0
  }

  /** A run that is bounded by the end of `s` or by a character outside `p`
      is the run `RunLength` measures. */
  lemma {:induction false} RunLengthIs(s: string, from: nat, p: char -> bool, m: nat)
    requires from + m <= |s|
    requires forall k :: from <= k < from + m ==> p(s[k])
    requires from + m == |s| || !p(s[from + m])
    ensures RunLength(s, from, p) == m
    decreases m
  {
    if m > 0 {
      RunLengthIs(s, from + 1, p, m - 1);
    }
  }

  // ---------------------------------------------------------------------------
  // strip() and split()

  function TrailingSpaces(s: string): (n: nat)
    ensures n <= |s|
    ensures forall k :: |s| - n <= k < |s| ==> IsSpace(s[k])
    ensures n < |s| ==> !IsSpace(s[|s| - n - 1])
  {
    if s != [] && IsSpace(s[|s| - 1]) then 1 + TrailingSpaces(s[..|s| - 1]) else 0
  }

  /** Python's `s.strip()`: `s` without its leading and trailing whitespace. */
  function Strip(s: string): (r: string)
    ensures RunLength(s, 0, IsSpace) + |r| <= |s|
    ensures r == s[RunLength(s, 0, IsSpace)..RunLength(s, 0, IsSpace) + |r|]
    ensures forall k :: RunLength(s, 0, IsSpace) + |r| <= k < |s| ==> IsSpace(s[k])
    ensures r == [] || (!IsSpace(r[0]) && !IsSpace(r[|r| - 1]))
  {
    var lead := RunLength(s, 0, IsSpace);
    var t := s[lead..];
    t[..|t| - TrailingSpaces(t)]
  }

  /** Python's `s.split()` with no separator: the maximal runs of
      non-whitespace characters, in order. */
  function Words(s: string): (ws: seq<string>)
    decreases |s|
    ensures forall i :: 0 <= i < |ws| ==> ws[i] != [] && NoSpace(ws[i])
  {
    var lead := RunLength(s, 0, IsSpace);
    if lead == |s| then []
    else
      var n := RunLength(s, lead, IsNotSpace);
      [s[lead..lead + n]] + Words(s[lead + n..])
  }

  /** Two words separated by one space split back into exactly those words. */
  lemma {:induction false} WordsOfPair(a: string, b: string)
    requires a != [] && NoSpace(a) && b != [] && NoSpace(b)
    ensures Words(a + " " + b) == [a, b]
  {
    var s := a + " " + b;
    assert s[..|a|] == a && s[|a|..] == " " + b;
    RunLengthIs(s, 0, IsNotSpace, |a|);
    WordsFirst(s, |a|);
    WordsOfSpaced(b);
  }

  /** A text that starts with a word of length `n` splits into that word and
      the words of the rest. */
  lemma WordsFirst(s: string, n: nat)
    requires s != [] && !IsSpace(s[0]) && n <= |s| && RunLength(s, 0, IsNotSpace) == n
    ensures Words(s) == [s[..n]] + Words(s[n..])
  {
    RunLengthIs(s, 0, IsSpace, 0);
  }

  /** One space and then a word split into that word. */
  lemma WordsOfSpaced(b: string)
    requires b != [] && NoSpace(b)
    ensures Words(" " + b) == [b]
  {
    var rest := " " + b;
    RunLengthIs(rest, 0, IsSpace, 1);
    RunLengthIs(rest, 1, IsNotSpace, |b|);
    assert rest[1..1 + |b|] == b;
    assert rest[1 + |b|..] == [];
    RunLengthIs([], 0, IsSpace, 0);
    assert Words([]) == [];
  }

  // ---------------------------------------------------------------------------
  // splitlines()

  /** Python's `s.splitlines()`: the text between line boundaries, where
      "\r\n" is one boundary and a final boundary does not start an empty line. */
  function SplitLines(s: string): (lines: seq<string>)
    decreases |s|
    ensures forall i :: 0 <= i < |lines| ==> NoLineBreak(lines[i])
  {
    if s == [] then []
    else
      var n := RunLength(s, 0, IsNotLineBreak);
      if n == |s| then [s]
      else
        var skip := if s[n] == '\r' && n + 1 < |s| && s[n + 1] == '\n' then 2 else 1;
        [s[..n]] + SplitLines(s[n + skip..])
  }

  /** The lines joined back with "\n" between them. */
  function JoinLines(lines: seq<string>): string {
    if lines == [] then []
    else if |lines| == 1 then lines[0]
    else lines[0] + "\n" + JoinLines(lines[1..])
  }

  /** For text whose only line boundary is "\n", joining the lines with "\n"
      gives back the text, less the final "\n" when there is one. */
  lemma {:induction false} SplitLinesRoundTrip(s: string)
    requires forall k :: 0 <= k < |s| ==> IsLineBreak(s[k]) ==> s[k] == '\n'
    ensures s == JoinLines(SplitLines(s)) || s == JoinLines(SplitLines(s)) + "\n"
    ensures s != [] && s[|s| - 1] == '\n' ==> s == JoinLines(SplitLines(s)) + "\n"
    decreases |s|
  {
    if s != [] {
      var n := RunLength(s, 0, IsNotLineBreak);
      if n < |s| {
        assert !IsNotLineBreak(s[n]);
        var rest := s[n + 1..];
        assert s == s[..n] + "\n" + rest;
        SplitLinesRoundTrip(rest);
        if rest == [] {
          assert SplitLines(s) == [s[..n]];
        } else {
          assert SplitLines(s) == [s[..n]] + SplitLines(rest);
          assert rest[|rest| - 1] == s[|s| - 1];
          var tail := SplitLines(rest);
          assert tail != [] by {
            var m := RunLength(rest, 0, IsNotLineBreak);
          }
          assert ([s[..n]] + tail)[1..] == tail;
        }
      }
    }
  }

  // ---------------------------------------------------------------------------
  // Padding

  function Spaces(n: nat): (r: string)
    ensures |r| == n && forall k :: 0 <= k < n ==> r[k] == ' '
  {
    seq(n, _ => ' ')
  }

  /** Python's `f"{s:<width}"` (`s.ljust(width)`): `s` followed by spaces up to
      `width` characters; never shortened. */
  function PadRight(s: string, width: nat): (r: string)
    ensures |r| == if |s| < width then width else |s|
    ensures r[..|s|] == s
    ensures forall k :: |s| <= k < |r| ==> r[k] == ' '
  {
    if |s| < width then s + Spaces(width - |s|) else s
  }

  // ---------------------------------------------------------------------------
  // Decimal numerals

  function DigitValue(c: char): (d: nat)
    requires IsDigit(c)
    ensures d < 10
  {
    c as int - '0' as int
  }

  function DigitChar(d: nat): (c: char)
    requires d < 10
    ensures IsDigit(c) && DigitValue(c) == d
  {
    ('0' as int + d) as char
  }

  /** The value of a string of decimal digits (the empty string reads as 0). */
  function DigitsValue(s: string): nat
    requires AllDigits(s)
  {
    if s == [] then 0 else 10 * DigitsValue(s[..|s| - 1]) + DigitValue(s[|s| - 1])
  }

  /** Python's `str(n)` for a natural number. */
  function NatToString(n: nat): (s: string)
    ensures s != [] && AllDigits(s)
  {
    if n < 10 then [DigitChar(n)] else NatToString(n / 10) + [DigitChar(n % 10)]
  }

  lemma {:induction false} NatToStringValue(n: nat)
    ensures DigitsValue(NatToString(n)) == n
  {
    if n >= 10 {
      NatToStringValue(n / 10);
      var s := NatToString(n);
      assert s[..|s| - 1] == NatToString(n / 10);
    }
  }

  /** Python's `int(s)` restricted to plain decimal digit strings: `None` for
      every string that is empty or holds a character other than a digit. */
  function ParseNat(s: string): (r: Option<nat>)
    ensures r.Some? <==> s != [] && AllDigits(s)
  {
    if s != [] && AllDigits(s) then Some(DigitsValue(s)) else None
  }

  lemma ParseNatOfNatToString(n: nat)
    ensures ParseNat(NatToString(n)) == Some(n)
  {
    NatToStringValue(n);
  }
}
