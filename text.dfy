/**
 * The string operations the pipeline borrows from Python's `str`: character
 * classes, `strip`, `lower`/`upper`, `int` of a digit string and the decimal
 * rendering of an `int`, `replace`, `split`, and the division of a text into
 * lines. Characters are treated as ASCII.
 */
module Text {

  /** `str.isspace()` on ASCII: tab, newline, vertical tab, form feed, carriage
      return, the separators 0x1C-0x1F and the space. */
  predicate IsSpace(c: char) {
    (9 <= c as int <= 13) || (28 <= c as int <= 32)
  }

  predicate IsDigit(c: char) { '0' <= c <= '9' }

  predicate IsUpper(c: char) { 'A' <= c <= 'Z' }

  predicate IsLower(c: char) { 'a' <= c <= 'z' }

  predicate IsLetter(c: char) { IsUpper(c) || IsLower(c) }

  predicate AllSpace(s: string) { forall k :: 0 <= k < |s| ==> IsSpace(s[k]) }

  predicate AllDigits(s: string) { forall k :: 0 <= k < |s| ==> IsDigit(s[k]) }

  /** A string of ASCII digits, as a `(\d+)` group captures. */
  type Digits = s: string | AllDigits(s) witness ""

  /** The character classes the scanners step over. `LineSpace` is `\s` kept
      inside one line; `NotNewline` is the `.` of a regular expression. */
  datatype CharClass = Space | LineSpace | Digit | Dot | ChapterRoman | SubclauseRoman | NotNewline

  predicate InClass(c: char, k: CharClass) {
    match k
    case Space => IsSpace(c)
    case LineSpace => IsSpace(c) && c != '\n'
    case Digit => IsDigit(c)
    case Dot => c == '.'
    case ChapterRoman => c == 'I' || c == 'V' || c == 'X' || c == 'L' || c == 'C'
    case SubclauseRoman => c == 'i' || c == 'v' || c == 'x' || c == 'I' || c == 'V' || c == 'X'
    case NotNewline => c != '\n'
  }

  /** The end of the longest run of class `k` that starts at `p`. */
  function Skip(s: string, p: nat, k: CharClass): (q: nat)
    requires p <= |s|
    ensures p <= q <= |s|
    ensures forall i :: p <= i < q ==> InClass(s[i], k)
    ensures q < |s| ==> !InClass(s[q], k)
    decreases |s| - p
  {
    if p < |s| && InClass(s[p], k) then Skip(s, p + 1, k) else p
  }

  /** The start of the longest run of class `k` that ends at `j`. */
  function SkipBack(s: string, j: nat, k: CharClass): (d: nat)
    requires j <= |s|
    ensures d <= j
    ensures forall i :: d <= i < j ==> InClass(s[i], k)
    ensures d > 0 ==> !InClass(s[d - 1], k)
  {
    if j > 0 && InClass(s[j - 1], k) then SkipBack(s, j - 1, k) else j
  }

  /** The run of digits that starts at `p`, as a `(\d+)` group captures it. */
  function DigitRun(s: string, p: nat): (r: Digits)
    requires p <= |s|
    ensures r == s[p..Skip(s, p, Digit)]
    ensures p < |s| && IsDigit(s[p]) ==> |r| >= 1
  {
    var q := Skip(s, p, Digit);
    assert forall k :: 0 <= k < q - p ==> s[p..q][k] == s[p + k];
    s[p..q]
  }

  /** A position where `^` matches in multi-line mode. */
  predicate LineStart(s: string, p: nat) {
    p == 0 || (0 < p <= |s| && s[p - 1] == '\n')
  }

  /** The run of class `k` from `p` ends at `q` when everything in between is
      of the class and the character at `q` (if any) is not. */
  lemma SkipTo(s: string, p: nat, q: nat, k: CharClass)
    requires p <= q <= |s|
    requires forall i :: p <= i < q ==> InClass(s[i], k)
    requires q == |s| || !InClass(s[q], k)
    ensures Skip(s, p, k) == q
  {
  }

  /** The position of the newline that ends the line holding `p`, or the end of `s`. */
  function LineEnd(s: string, p: nat): (e: nat)
    requires p <= |s|
    ensures p <= e <= |s|
    ensures forall i :: p <= i < e ==> s[i] != '\n'
    ensures e < |s| ==> s[e] == '\n'
  {
    Skip(s, p, NotNewline)
  }

  // ---------------------------------------------------------------- strip

  /** Index of the first non-space character (or `|s|`). */
  function StripStart(s: string): (i: nat)
    ensures i <= |s| && AllSpace(s[..i])
    ensures i < |s| ==> !IsSpace(s[i])
  {
    Skip(s, 0, Space)
  }

  function TrimRight(s: string, j: nat): (e: nat)
    requires j <= |s|
    ensures e <= j && AllSpace(s[e..j])
    ensures e > 0 ==> !IsSpace(s[e - 1])
  {
    if j > 0 && IsSpace(s[j - 1]) then
      var e := TrimRight(s, j - 1);
      assert s[e..j] == s[e..j - 1] + [s[j - 1]];
      e
    else
      j
  }

  /** Index one past the last non-space character. */
  function StripEnd(s: string): (j: nat)
    ensures StripStart(s) <= j <= |s| && AllSpace(s[j..])
    ensures j > StripStart(s) ==> !IsSpace(s[j - 1])
  {
    var i, j := StripStart(s), TrimRight(s, |s|);
    if j < i then
      i
    else
      j
  }

  /** `str.strip()`: `s` without its leading and trailing whitespace. */
  function Strip(s: string): (r: string)
    ensures |r| <= |s|
    ensures r == [] || (!IsSpace(r[0]) && !IsSpace(r[|r| - 1]))
    ensures r == [] <==> AllSpace(s)
  {
    var i, j := StripStart(s), StripEnd(s);
    assert AllSpace(s) ==> i == |s|;
    assert i == j ==> (forall k :: 0 <= k < |s| ==> IsSpace(s[k])) by {
      if i == j {
        forall k | 0 <= k < |s| ensures IsSpace(s[k]) {
          if k < i { assert s[..i][k] == s[k]; }
        }
      }
    }
    s[i..j]
  }

  /** Stripping twice is stripping once. */
  lemma StripIdempotent(s: string)
    ensures Strip(Strip(s)) == Strip(s)
  {
    var r := Strip(s);
    if r != [] {
      assert StripStart(r) == 0;
      assert TrimRight(r, |r|) == |r|;
    }
  }

  /** Stripping keeps a text free of edge whitespace unchanged. */
  lemma StripNoEdgeSpace(s: string)
    requires s == [] || (!IsSpace(s[0]) && !IsSpace(s[|s| - 1]))
    ensures Strip(s) == s
  {
    if s != [] {
      assert StripStart(s) == 0;
      assert TrimRight(s, |s|) == |s|;
    }
  }

  /** A text with no edge blanks, followed by one blank, strips to itself. */
  lemma StripTrailingBlank(line: string, c: char)
    requires line != [] && !IsSpace(line[0]) && !IsSpace(line[|line| - 1]) && IsSpace(c)
    ensures Strip(line + [c]) == line
  {
    var w := line + [c];
    assert StripStart(w) == 0;
    assert TrimRight(w, |w|) == TrimRight(w, |line|) == |line|;
  }

  // ---------------------------------------------------------------- case

  function LowerChar(c: char): (d: char)
    ensures IsUpper(c) ==> IsLower(d)
    ensures !IsUpper(c) ==> d == c
  {
    if IsUpper(c) then (c as int + 32) as char else c
  }

  function UpperChar(c: char): (d: char)
    ensures IsLower(c) ==> IsUpper(d)
    ensures !IsLower(c) ==> d == c
  {
    if IsLower(c) then (c as int - 32) as char else c
  }

  /** `str.lower()` on ASCII. */
  function Lower(s: string): (r: string)
    ensures |r| == |s|
    ensures forall k :: 0 <= k < |s| ==> r[k] == LowerChar(s[k])
  {
    seq(|s|, k requires 0 <= k < |s| => LowerChar(s[k]))
  }

  /** `str.upper()` on ASCII. */
  function Upper(s: string): (r: string)
    ensures |r| == |s|
    ensures forall k :: 0 <= k < |s| ==> r[k] == UpperChar(s[k])
  {
    seq(|s|, k requires 0 <= k < |s| => UpperChar(s[k]))
  }

  // ---------------------------------------------------------------- numbers

  function Pow10(n: nat): (r: nat)
    ensures r >= 1
  {
    if n == 0 then 1 else 10 * Pow10(n - 1)
  }

  function DigitValue(c: char): nat
    requires IsDigit(c)
  {
    c as int - '0' as int
  }

  /** `int(s)` for a string of ASCII digits. */
  function DigitsValue(s: string): (n: nat)
    requires AllDigits(s)
    ensures n < Pow10(|s|)
  {
    if s == [] then 0 else DigitsValue(s[..|s| - 1]) * 10 + DigitValue(s[|s| - 1])
  }

  /** The value of a concatenation of digit strings, read positionally. */
  lemma {:induction false} DigitsValueAppend(a: string, b: string)
    requires AllDigits(a) && AllDigits(b)
    ensures AllDigits(a + b)
    ensures DigitsValue(a + b) == DigitsValue(a) * Pow10(|b|) + DigitsValue(b)
  {
    if b != [] {
      var b' := b[..|b| - 1];
      var d := DigitValue(b[|b| - 1]);
      assert (a + b)[..|a + b| - 1] == a + b';
      DigitsValueAppend(a, b');
      assert DigitsValue(a + b) == DigitsValue(a + b') * 10 + d;
      assert DigitsValue(b) == DigitsValue(b') * 10 + d;
      assert Pow10(|b|) == 10 * Pow10(|b'|);
      ShiftDigit(DigitsValue(a), Pow10(|b'|), DigitsValue(b'), d);
    } else {
      assert a + b == a;
    }
  }

  lemma ShiftDigit(x: int, p: int, v: int, d: int)
    ensures (x * p + v) * 10 + d == x * (10 * p) + (v * 10 + d)
  {
  }

  function DigitChar(d: nat): (c: char)
    requires d < 10
    ensures IsDigit(c) && DigitValue(c) == d
  {
    ('0' as int + d) as char
  }

  /** The decimal rendering of `n`, as `f"{n}"` gives it. */
  function NatToString(n: nat): (r: string)
    ensures |r| >= 1 && AllDigits(r)
    ensures DigitsValue(r) == n
    ensures r[0] == '0' ==> n == 0
  {
    if n < 10 then [DigitChar(n)]
    else
      var r := NatToString(n / 10) + [DigitChar(n % 10)];
      assert r[..|r| - 1] == NatToString(n / 10);
      r
  }

  // ---------------------------------------------------------------- ordering

  /** Python's `<` on strings: code-point order, a proper prefix first. */
  predicate StrLess(a: string, b: string)
    decreases |a|
  {
    if a == [] then b != []
    else b != [] && (a[0] < b[0] || (a[0] == b[0] && StrLess(a[1..], b[1..])))
  }

  lemma {:induction false} StrLessIrreflexive(a: string)
    ensures !StrLess(a, a)
    decreases |a|
  {
    if a != [] {
      StrLessIrreflexive(a[1..]);
    }
  }

  lemma {:induction false} StrLessTransitive(a: string, b: string, c: string)
    requires StrLess(a, b) && StrLess(b, c)
    ensures StrLess(a, c)
    decreases |a|
  {
    if a != [] && a[0] == b[0] && b[0] == c[0] {
      StrLessTransitive(a[1..], b[1..], c[1..]);
    }
  }

  /** Two different strings are ordered one way or the other, never both. */
  lemma {:induction false} StrLessTotal(a: string, b: string)
    ensures a == b || StrLess(a, b) || StrLess(b, a)
    ensures !(StrLess(a, b) && StrLess(b, a))
    decreases |a|
  {
    if a != [] && b != [] && a[0] == b[0] {
      StrLessTotal(a[1..], b[1..]);
      assert a == [a[0]] + a[1..] && b == [b[0]] + b[1..];
    }
  }

  // ---------------------------------------------------------------- replace, split

  /** `s.replace(c, "")` for a one-character `c`. */
  function RemoveChar(s: string, c: char): (r: string)
    ensures c !in r
    ensures c !in s ==> r == s
    ensures |r| <= |s|
  {
    if s == [] then []
    else (if s[0] == c then [] else [s[0]]) + RemoveChar(s[1..], c)
  }

  /** `s.split(sep)[-1]`: the text after the last `sep`, or all of `s`. */
  function LastSegment(s: string, sep: char): (r: string)
    ensures sep !in r
    ensures |r| <= |s| && r == s[|s| - |r|..]
    ensures |r| < |s| ==> s[|s| - |r| - 1] == sep
  {
    if s == [] then []
    else if s[|s| - 1] == sep then []
    else
      var r := LastSegment(s[..|s| - 1], sep) + [s[|s| - 1]];
      assert s[..|s| - 1][|s| - |r|..] + [s[|s| - 1]] == s[|s| - |r|..];
      r
  }

  // ---------------------------------------------------------------- lines

  /** `s.split("\n")`. */
  function Lines(s: string): (ls: seq<string>)
    ensures |ls| >= 1
    ensures forall k :: 0 <= k < |ls| ==> '\n' !in ls[k]
    decreases |s|
  {
    var e := LineEnd(s, 0);
    assert s[0..e] == s[..e];
    if e == |s| then [s] else [s[..e]] + Lines(s[e + 1..])
  }

  /** `"\n".join(ls)`. */
  function Join(ls: seq<string>): string
    requires |ls| >= 1
  {
    if |ls| == 1 then ls[0] else ls[0] + "\n" + Join(ls[1..])
  }

  /** Joining the lines of a text gives the text back. */
  lemma {:induction false} JoinLines(s: string)
    ensures Join(Lines(s)) == s
    decreases |s|
  {
    var e := LineEnd(s, 0);
    if e < |s| {
      JoinLines(s[e + 1..]);
      assert s == s[..e] + "\n" + s[e + 1..];
    }
  }

  /** Splitting joined newline-free lines gives the lines back. */
  lemma {:induction false} LinesJoin(ls: seq<string>)
    requires |ls| >= 1
    requires forall k :: 0 <= k < |ls| ==> '\n' !in ls[k]
    ensures Lines(Join(ls)) == ls
    decreases |ls|
  {
    var s := Join(ls);
    if |ls| == 1 {
      assert '\n' !in s;
      assert LineEnd(s, 0) == |s|;
    } else {
      var a := ls[0];
      assert s == a + "\n" + Join(ls[1..]);
      assert s[|a|] == '\n';
      assert forall k :: 0 <= k < |a| ==> s[k] == a[k];
      assert LineEnd(s, 0) == |a| by {
        var e := LineEnd(s, 0);
        assert s[0..e] == s[..e];
      }
      assert s[..|a|] == a;
      assert s[|a| + 1..] == Join(ls[1..]);
      LinesJoin(ls[1..]);
    }
  }
}
