/**
 * Clause segmentation of a section's text: digit-only lines (page numbers) are
 * blanked, the text is cut at every line that begins with a number, a "." and
 * a blank, and the pieces whose number is a plausible clause number are kept.
 *
 * The three regular expressions involved (`^\s*\d+\s*$`, `^\s*(\d+)\.\s+` and
 * the sub-clause marker) are modelled with the way Python's matcher resolves
 * them: `\s` also takes newlines, greedy repetitions give back characters only
 * when the rest of the pattern needs it, and `finditer`/`sub` resume the search
 * where the previous match ended.
 */
module Clauses {
  import opened Wrappers
  import opened Text
  import opened Scan
  import opened Seqs

  // ================================================================ clean_text

  /** The stretch `[start, end)` of a text that a pattern matched. */
  datatype Span = Span(start: nat, end: nat)

  const SpanStart: Span -> nat := (m: Span) => m.start
  const SpanEnd: Span -> nat := (m: Span) => m.end

  /** The largest position in `[lo, hi)` that holds a newline. */
  function LastNewline(s: string, lo: nat, hi: nat): (t: Option<nat>)
    requires hi <= |s|
    ensures t.Some? ==> lo <= t.value < hi && s[t.value] == '\n'
    ensures t.Some? ==> forall k :: t.value < k < hi ==> s[k] != '\n'
    ensures t.None? ==> forall k :: lo <= k < hi ==> s[k] != '\n'
    decreases hi
  {
    if hi <= lo then None
    else if s[hi - 1] == '\n' then Some(hi - 1)
    else LastNewline(s, lo, hi - 1)
  }

  /** A character `clean_text` may delete. */
  predicate Blank(c: char) {
    IsSpace(c) || IsDigit(c)
  }

  /** `^\s*\d+\s*$` tried at `p`: blanks (of any line), digits, then blanks up
      to an end of line. The trailing `\s*` runs to `w` and gives back blanks
      until `$` holds, that is, up to the last newline before `w`, or to `w`
      itself when that is the end of the text. */
  function DigitLineAt(s: string, p: nat): (m: Option<Span>)
    requires p <= |s|
    ensures m.Some? ==> m.value.start == p < m.value.end <= |s|
    ensures m.Some? ==> forall k :: p <= k < m.value.end ==> Blank(s[k])
    ensures m.Some? ==> m.value.end == |s| || s[m.value.end] == '\n'
  {
    var q := Skip(s, p, Space);
    var d := Skip(s, q, Digit);
    if d == q then None
    else
      var w := Skip(s, d, Space);
      if w == |s| then Some(Span(p, w))
      else match LastNewline(s, d, w)
        case Some(u) => Some(Span(p, u))
        case None => None
  }

  /** The matcher `re.sub` tries at each position: `^` only matches at a line start. */
  function DigitLineMatcher(s: string): nat -> Option<Span> {
    (q: nat) => if q <= |s| && LineStart(s, q) then DigitLineAt(s, q) else None
  }

  lemma DigitLineMatcherAdvances(s: string)
    ensures Advances(|s|, DigitLineMatcher(s), SpanStart, SpanEnd)
  {
    forall q: nat | q < |s| && DigitLineMatcher(s)(q).Some?
      ensures SpanStart(DigitLineMatcher(s)(q).value) == q < SpanEnd(DigitLineMatcher(s)(q).value) <= |s|
    {
      assert DigitLineMatcher(s)(q) == DigitLineAt(s, q);
    }
  }

  /** Spans inside a text of length `n`, each ending no later than the next begins. */
  predicate Ordered(ms: seq<Span>, n: nat) {
    && (forall k :: 0 <= k < |ms| ==> ms[k].start < ms[k].end <= n)
    && (forall k :: 0 <= k < |ms| - 1 ==> ms[k].end <= ms[k + 1].start)
  }

  /** Every span holds only characters `clean_text` may delete. */
  predicate BlankSpans(s: string, ms: seq<Span>)
    requires Ordered(ms, |s|)
  {
    forall k, i :: 0 <= k < |ms| && ms[k].start <= i < ms[k].end ==> Blank(s[i])
  }

  /** The digit-only lines `re.sub` replaces, in text order. */
  function DigitLines(s: string): (ms: seq<Span>)
    ensures Ordered(ms, |s|) && BlankSpans(s, ms)
  {
    DigitLineMatcherAdvances(s);
    var ms := ScanFrom(|s|, DigitLineMatcher(s), SpanStart, SpanEnd, 0);
    ScanPlaced(|s|, DigitLineMatcher(s), SpanStart, SpanEnd, 0);
    forall k | 0 <= k < |ms| ensures ms[k].start < ms[k].end <= |s| && DigitLineAt(s, ms[k].start) == Some(ms[k]) {
      assert ms[k] in ms;
      assert DigitLineMatcher(s)(ms[k].start) == Some(ms[k]);
    }
    ms
  }

  /** `s` from `from` on with the spans `ms` cut out. */
  function Gaps(s: string, ms: seq<Span>, from: nat): (r: string)
    requires from <= |s| && Ordered(ms, |s|)
    requires ms != [] ==> from <= ms[0].start
    ensures |r| <= |s| - from
    decreases |ms|
  {
    if ms == [] then s[from..]
    else
      assert Ordered(ms[1..], |s|);
      s[from..ms[0].start] + Gaps(s, ms[1..], ms[0].end)
  }

  /** `clean_text`: every digit-only line (a page number) replaced by nothing. */
  function CleanText(s: string): (r: string)
    ensures |r| <= |s|
  {
    Gaps(s, DigitLines(s), 0)
  }

  /** No line start begins a digit-only line. */
  ghost predicate NoDigitLine(s: string) {
    forall q :: 0 <= q < |s| && LineStart(s, q) ==> DigitLineAt(s, q).None?
  }

  /** `DigitLines` reports exactly the matches of the pattern: each is what the
      pattern gives where it starts, every line start where the pattern matches
      lies inside a reported match, and none is reported when no line matches. */
  lemma DigitLinesExact(s: string)
    ensures forall m :: m in DigitLines(s) ==> LineStart(s, m.start) && DigitLineAt(s, m.start) == Some(m)
    ensures forall q :: 0 <= q < |s| && LineStart(s, q) && DigitLineAt(s, q).Some? ==>
      exists k :: 0 <= k < |DigitLines(s)| && DigitLines(s)[k].start <= q < DigitLines(s)[k].end
    ensures DigitLines(s) == [] <==> NoDigitLine(s)
  {
    var at := DigitLineMatcher(s);
    DigitLineMatcherAdvances(s);
    ScanPlaced(|s|, at, SpanStart, SpanEnd, 0);
    forall m | m in DigitLines(s) ensures LineStart(s, m.start) && DigitLineAt(s, m.start) == Some(m) {
      assert at(m.start) == Some(m);
    }
    forall q | 0 <= q < |s| && LineStart(s, q) && DigitLineAt(s, q).Some?
      ensures exists k :: 0 <= k < |DigitLines(s)| && DigitLines(s)[k].start <= q < DigitLines(s)[k].end
    {
      assert at(q) == DigitLineAt(s, q);
      var k := ScanCover(|s|, at, SpanStart, SpanEnd, 0, q);
      assert DigitLines(s)[k].start <= q < DigitLines(s)[k].end;
    }
    if NoDigitLine(s) {
      forall q | 0 <= q < |s| ensures at(q).None? {
        assert LineStart(s, q) ==> at(q) == DigitLineAt(s, q);
      }
      ScanNone(|s|, at, SpanStart, SpanEnd, 0);
    }
  }

  /** A text without digit-only lines comes through `clean_text` unchanged. */
  lemma CleanTextUnchanged(s: string)
    requires NoDigitLine(s)
    ensures CleanText(s) == s
  {
    DigitLinesExact(s);
    assert s[0..] == s;
  }

  /** The characters of `s` that `clean_text` never deletes, in order. */
  function Words(s: string): (r: string)
    ensures |r| <= |s|
  {
    if s == [] then [] else (if Blank(s[0]) then [] else [s[0]]) + Words(s[1..])
  }

  lemma {:induction false} WordsAppend(a: string, b: string)
    ensures Words(a + b) == Words(a) + Words(b)
  {
    if a != [] {
      assert (a + b)[1..] == a[1..] + b;
      WordsAppend(a[1..], b);
    } else {
      assert a + b == b;
    }
  }

  lemma {:induction false} WordsBlank(a: string)
    requires forall i :: 0 <= i < |a| ==> Blank(a[i])
    ensures Words(a) == []
  {
    if a != [] {
      WordsBlank(a[1..]);
    }
  }

  /** Cutting out a blank stretch `[a, b)` leaves the words as they are. */
  lemma WordsSkipBlank(s: string, from: nat, a: nat, b: nat)
    requires from <= a <= b <= |s|
    requires forall i :: a <= i < b ==> Blank(s[i])
    ensures Words(s[from..]) == Words(s[from..a]) + Words(s[b..])
  {
    assert s[from..] == s[from..a] + (s[a..b] + s[b..]);
    WordsAppend(s[from..a], s[a..b] + s[b..]);
    WordsAppend(s[a..b], s[b..]);
    WordsBlankSlice(s, a, b);
  }

  lemma WordsBlankSlice(s: string, a: nat, b: nat)
    requires a <= b <= |s|
    requires forall i :: a <= i < b ==> Blank(s[i])
    ensures Words(s[a..b]) == []
  {
    assert forall i :: 0 <= i < |s[a..b]| ==> s[a..b][i] == s[a + i];
    WordsBlank(s[a..b]);
  }

  lemma {:induction false} GapsWords(s: string, ms: seq<Span>, from: nat)
    requires from <= |s| && Ordered(ms, |s|) && BlankSpans(s, ms)
    requires ms != [] ==> from <= ms[0].start
    ensures Words(Gaps(s, ms, from)) == Words(s[from..])
    decreases |ms|
  {
    if ms != [] {
      var a, b := ms[0].start, ms[0].end;
      var rest := ms[1..];
      assert Ordered(rest, |s|);
      assert BlankSpans(s, rest) by {
        forall k, i | 0 <= k < |rest| && rest[k].start <= i < rest[k].end ensures Blank(s[i]) {
          assert rest[k] == ms[k + 1];
        }
      }
      GapsWords(s, rest, b);
      WordsSkipBlank(s, from, a, b);
      WordsAppend(s[from..a], Gaps(s, rest, b));
    }
  }

  /** `clean_text` deletes only whitespace and digits: every other character
      survives, in its order. */
  lemma CleanTextKeepsWords(s: string)
    ensures Words(CleanText(s)) == Words(s)
  {
    GapsWords(s, DigitLines(s), 0);
    assert s[0..] == s;
  }

  // ================================================================ clause numbers

  /** `is_valid_clause_number`: strings of four or more digits that begin with
      "19" or "20" (years) are refused; otherwise the value must be 1 to 500. */
  function IsValidClauseNumber(num: Digits): bool
    requires |num| >= 1
  {
    if |num| >= 4 && (num[..2] == "19" || num[..2] == "20") then false
    else
      var n := DigitsValue(num);
      !(n <= 0 || n > 500)
  }

  lemma {:induction false} Pow10AtLeast(n: nat)
    requires n >= 2
    ensures Pow10(n) >= 100
  {
    if n > 2 {
      Pow10AtLeast(n - 1);
    }
  }

  /** The value of a two-digit string. */
  lemma TwoDigits(a: string)
    requires |a| == 2 && AllDigits(a)
    ensures DigitsValue(a) == DigitValue(a[0]) * 10 + DigitValue(a[1])
  {
    assert a[..1][..0] == [];
  }

  lemma MulAtLeast(x: nat, y: nat)
    requires x >= 19 && y >= 100
    ensures x * y >= 1900
  {
    assert x * y >= 19 * y;
  }

  /** A number of four or more digits that begins with "19" or "20" is at least 1900. */
  lemma YearSized(num: Digits)
    requires |num| >= 4 && (num[..2] == "19" || num[..2] == "20")
    ensures DigitsValue(num) >= 1900
  {
    var head, tail := num[..2], num[2..];
    assert num == head + tail;
    DigitsValueAppend(head, tail);
    TwoDigits(head);
    assert head[0] == num[0] && head[1] == num[1];
    assert DigitsValue(head) >= 19;
    Pow10AtLeast(|tail|);
    MulAtLeast(DigitsValue(head), Pow10(|tail|));
  }

  /** The year rule refuses nothing the range rule would accept: a clause
      number is valid exactly when its value is 1 to 500. */
  lemma ValidClauseNumberIff(num: Digits)
    requires |num| >= 1
    ensures IsValidClauseNumber(num) <==> 1 <= DigitsValue(num) <= 500
  {
    if |num| >= 4 && (num[..2] == "19" || num[..2] == "20") {
      YearSized(num);
    }
  }

  /** "1", "150" and "500" are accepted; "0", "501", "1999" and "2024" are not. */
  lemma ValidClauseNumberExamples()
    ensures IsValidClauseNumber("1") && IsValidClauseNumber("150") && IsValidClauseNumber("500")
    ensures !IsValidClauseNumber("0") && !IsValidClauseNumber("501")
    ensures !IsValidClauseNumber("1999") && !IsValidClauseNumber("2024")
  {
    assert "1999"[..2] == "19";
    assert "2024"[..2] == "20";
    assert "501" == "50" + "1";
    DigitsValueAppend("50", "1");
    TwoDigits("50");
    assert "150" == "15" + "0";
    DigitsValueAppend("15", "0");
    TwoDigits("15");
  }

  // ================================================================ clause boundaries

  /** A match of `CLAUSE_RE`: where it starts and ends, and the number group. */
  datatype ClauseMatch = ClauseMatch(start: nat, number: Digits, end: nat)

  const ClauseStart: ClauseMatch -> nat := (m: ClauseMatch) => m.start
  const ClauseEnd: ClauseMatch -> nat := (m: ClauseMatch) => m.end

  /** `^\s*(\d+)\.\s+` tried at `p`: blanks (of any line), digits, ".", and at
      least one blank, all of which the match takes. */
  function ClauseAt(s: string, p: nat): (m: Option<ClauseMatch>)
    requires p <= |s|
    ensures m.Some? ==> m.value.start == p < m.value.end <= |s| && |m.value.number| >= 1
  {
    var q := Skip(s, p, Space);
    var d := Skip(s, q, Digit);
    if q < d && d + 1 < |s| && s[d] == '.' && IsSpace(s[d + 1]) then
      Some(ClauseMatch(p, DigitRun(s, q), Skip(s, d + 1, Space)))
    else
      None
  }

  /** Where the pattern matches, read off the text: blanks up to `q`, the
      digits `s[q..d]`, then "." and a blank. */
  ghost predicate ClauseForm(s: string, p: nat, q: nat, d: nat) {
    && p <= q < d && d + 1 < |s|
    && (forall i :: p <= i < q ==> IsSpace(s[i]))
    && (forall i :: q <= i < d ==> IsDigit(s[i]))
    && s[d] == '.' && IsSpace(s[d + 1])
  }

  /** `ClauseAt` finds a match exactly where the text has the clause form, and
      then its number is the digit run of that form. */
  lemma ClauseAtIff(s: string, p: nat)
    requires p <= |s|
    ensures ClauseAt(s, p).Some? <==> exists q: nat, d: nat :: ClauseForm(s, p, q, d)
    ensures forall q: nat, d: nat :: ClauseForm(s, p, q, d) ==> ClauseAt(s, p).value.number == s[q..d]
  {
    var q0 := Skip(s, p, Space);
    var d0 := Skip(s, q0, Digit);
    if ClauseAt(s, p).Some? {
      assert ClauseForm(s, p, q0, d0);
    }
    forall q: nat, d: nat | ClauseForm(s, p, q, d) ensures ClauseAt(s, p).Some? && ClauseAt(s, p).value.number == s[q..d] {
      SkipTo(s, p, q, Space);
      SkipTo(s, q, d, Digit);
    }
  }

  function ClauseMatcher(s: string): nat -> Option<ClauseMatch> {
    (q: nat) => if q <= |s| && LineStart(s, q) then ClauseAt(s, q) else None
  }

  lemma ClauseMatcherAdvances(s: string)
    ensures Advances(|s|, ClauseMatcher(s), ClauseStart, ClauseEnd)
  {
    forall q: nat | q < |s| && ClauseMatcher(s)(q).Some?
      ensures ClauseStart(ClauseMatcher(s)(q).value) == q < ClauseEnd(ClauseMatcher(s)(q).value) <= |s|
    {
      assert ClauseMatcher(s)(q) == ClauseAt(s, q);
    }
  }

  /** Clause matches inside a text of length `n`, each ending no later than the
      next begins, each with a number. */
  predicate ClauseOrdered(ms: seq<ClauseMatch>, n: nat) {
    && (forall k :: 0 <= k < |ms| ==> ms[k].start < ms[k].end <= n && |ms[k].number| >= 1)
    && (forall k :: 0 <= k < |ms| - 1 ==> ms[k].end <= ms[k + 1].start)
  }

  /** `list(CLAUSE_RE.finditer(s))`. */
  function ClauseMatches(s: string): (ms: seq<ClauseMatch>)
    ensures ClauseOrdered(ms, |s|)
  {
    ClauseMatcherAdvances(s);
    var ms := ScanFrom(|s|, ClauseMatcher(s), ClauseStart, ClauseEnd, 0);
    ScanPlaced(|s|, ClauseMatcher(s), ClauseStart, ClauseEnd, 0);
    forall k | 0 <= k < |ms| ensures ms[k].start < ms[k].end <= |s| && |ms[k].number| >= 1 {
      assert ms[k] in ms;
      assert ClauseMatcher(s)(ms[k].start) == Some(ms[k]);
    }
    ms
  }

  /** No line start begins a clause. */
  ghost predicate NoClauseLine(s: string) {
    forall q :: 0 <= q < |s| && LineStart(s, q) ==> ClauseAt(s, q).None?
  }

  /** `ClauseMatches` reports exactly the matches of `CLAUSE_RE`: each is what
      the pattern gives at a line start, every line start where it matches lies
      inside a reported match, and none is reported when no line matches. */
  lemma ClauseMatchesExact(s: string)
    ensures forall m :: m in ClauseMatches(s) ==> LineStart(s, m.start) && ClauseAt(s, m.start) == Some(m)
    ensures forall q :: 0 <= q < |s| && LineStart(s, q) && ClauseAt(s, q).Some? ==>
      exists k :: 0 <= k < |ClauseMatches(s)| && ClauseMatches(s)[k].start <= q < ClauseMatches(s)[k].end
    ensures ClauseMatches(s) == [] <==> NoClauseLine(s)
  {
    var at := ClauseMatcher(s);
    ClauseMatcherAdvances(s);
    ScanPlaced(|s|, at, ClauseStart, ClauseEnd, 0);
    forall m | m in ClauseMatches(s) ensures LineStart(s, m.start) && ClauseAt(s, m.start) == Some(m) {
      assert at(m.start) == Some(m);
    }
    forall q | 0 <= q < |s| && LineStart(s, q) && ClauseAt(s, q).Some?
      ensures exists k :: 0 <= k < |ClauseMatches(s)| && ClauseMatches(s)[k].start <= q < ClauseMatches(s)[k].end
    {
      assert at(q) == ClauseAt(s, q);
      var k := ScanCover(|s|, at, ClauseStart, ClauseEnd, 0, q);
      assert ClauseMatches(s)[k].start <= q < ClauseMatches(s)[k].end;
    }
    if NoClauseLine(s) {
      forall q | 0 <= q < |s| ensures at(q).None? {
        assert LineStart(s, q) ==> at(q) == ClauseAt(s, q);
      }
      ScanNone(|s|, at, ClauseStart, ClauseEnd, 0);
    }
  }

  // ================================================================ split_into_clauses

  /** One entry of the result of `split_into_clauses`. */
  datatype Clause = Clause(number: Digits, text: string)

  /** Where the slice of match `i` ends: at the start of the next match, valid
      or not, or at the end of the text. */
  function SliceEnd(t: string, ms: seq<ClauseMatch>, i: nat): nat
    requires i < |ms|
  {
    if i + 1 < |ms| then ms[i + 1].start else |t|
  }

  /** The clause every match would give if its number were valid. */
  function Candidates(t: string, ms: seq<ClauseMatch>): (cs: seq<Clause>)
    requires ClauseOrdered(ms, |t|)
    ensures |cs| == |ms|
  {
    seq(|ms|, i requires 0 <= i < |ms| =>
      Clause(ms[i].number, Strip(t[ms[i].start..SliceEnd(t, ms, i)])))
  }

  const ValidMatch: ClauseMatch -> bool :=
    (m: ClauseMatch) => |m.number| >= 1 && IsValidClauseNumber(m.number)

  /** What `split_into_clauses` returns: the candidates of the matches in the
      cleaned text whose number is valid. */
  function ClausesOf(text: string): seq<Clause> {
    var t := CleanText(text);
    var ms := ClauseMatches(t);
    Pick(Candidates(t, ms), KeptBy(ms, ValidMatch, |ms|))
  }

  method SplitIntoClauses(text: string) returns (clauses: seq<Clause>)
    ensures clauses == ClausesOf(text)
  {
    var t := CleanText(text);
    var ms := ClauseMatches(t);
    ghost var cands := Candidates(t, ms);
    if ms == [] {
      assert KeptBy(ms, ValidMatch, 0) == [];
      return [];
    }
    clauses := [];
    var i := 0;
    while i < |ms|
      invariant i <= |ms|
      invariant clauses == Pick(cands, KeptBy(ms, ValidMatch, i))
    {
      var start := ms[i].start;
      var end := if i + 1 < |ms| then ms[i + 1].start else |t|;
      var number := ms[i].number;
      var ok := IsValidClauseNumber(number);
      assert cands[i] == Clause(number, Strip(t[start..end]));
      assert ValidMatch(ms[i]) == ok;
      PickStep(ms, cands, ValidMatch, i, clauses, ok);
      if ok {
        clauses := clauses + [Clause(number, Strip(t[start..end]))];
      }
      i := i + 1;
    }
  }

  /** The clauses of `text`, whose cleaned text is `t` with clause matches `ms`,
      come from the matches at positions `idx`, in text order: each has a number
      of value 1 to 500, and its text is the stripped slice from its match to
      the next match of any validity, or to the end. No match with such a number
      is left out, and there are at most as many clauses as matches. */
  lemma SplitClauses(text: string, t: string, ms: seq<ClauseMatch>) returns (idx: seq<nat>)
    requires t == CleanText(text) && ms == ClauseMatches(t)
    ensures |ClausesOf(text)| == |idx| <= |ms|
    ensures forall k, l :: 0 <= k < l < |idx| ==> idx[k] < idx[l]
    ensures forall k :: 0 <= k < |idx| ==> idx[k] < |ms| && ClausesOf(text)[k].number == ms[idx[k]].number
    ensures forall k :: 0 <= k < |idx| ==> 1 <= DigitsValue(ClausesOf(text)[k].number) <= 500
    ensures forall k :: 0 <= k < |idx| ==>
      ClausesOf(text)[k].text == Strip(t[ms[idx[k]].start..if idx[k] + 1 < |ms| then ms[idx[k] + 1].start else |t|])
    ensures forall i :: 0 <= i < |ms| && 1 <= DigitsValue(ms[i].number) <= 500 ==> i in idx
  {
    var cands := Candidates(t, ms);
    assert ClausesOf(text) == Pick(cands, KeptBy(ms, ValidMatch, |ms|));
    idx := PickKept(ms, cands, ValidMatch);
    forall k | 0 <= k < |idx|
      ensures ClausesOf(text)[k].number == ms[idx[k]].number
      ensures 1 <= DigitsValue(ClausesOf(text)[k].number) <= 500
      ensures ClausesOf(text)[k].text == Strip(t[ms[idx[k]].start..if idx[k] + 1 < |ms| then ms[idx[k] + 1].start else |t|])
    {
      var i := idx[k];
      assert ClausesOf(text)[k] == cands[i];
      ValidClauseNumberIff(ms[i].number);
    }
    forall i | 0 <= i < |ms| && 1 <= DigitsValue(ms[i].number) <= 500 ensures i in idx {
      ValidClauseNumberIff(ms[i].number);
    }
  }

  /** What every returned clause satisfies: a number from 1 to 500 and a text
      with no surrounding whitespace. */
  predicate Accepted(c: Clause) {
    && 1 <= DigitsValue(c.number) <= 500
    && (c.text == [] || (!IsSpace(c.text[0]) && !IsSpace(c.text[|c.text| - 1])))
  }

  lemma ClausesAccepted(text: string)
    ensures forall k :: 0 <= k < |ClausesOf(text)| ==> Accepted(ClausesOf(text)[k])
  {
    var t := CleanText(text);
    var idx := SplitClauses(text, t, ClauseMatches(t));
  }

  /** Without a clause line in the cleaned text there are no clauses. */
  lemma NoClauses(text: string)
    requires NoClauseLine(CleanText(text))
    ensures ClausesOf(text) == []
  {
    ClauseMatchesExact(CleanText(text));
  }

  // ================================================================ has_subclauses

  /** `\s*` from `k`, then ")". */
  predicate ClosesAt(s: string, k: nat)
    requires k <= |s|
  {
    var m := Skip(s, k, Space);
    m < |s| && s[m] == ')'
  }

  /** The marker pattern tried at `i`, case-insensitively: "(", blanks, then
      either a run of i/v/x or a single letter, blanks, ")". Neither branch can
      gain from giving characters back, so each is decided by its greedy run. */
  predicate SubclauseAt(s: string, i: nat)
    requires i <= |s|
  {
    i < |s| && s[i] == '(' &&
    var j := Skip(s, i + 1, Space);
    var k := Skip(s, j, SubclauseRoman);
    (j < k && ClosesAt(s, k)) || (j < |s| && IsLetter(s[j]) && ClosesAt(s, j + 1))
  }

  /** The test `re.search` applies at each position. */
  function SubclauseTest(s: string): nat -> bool {
    (p: nat) => p <= |s| && SubclauseAt(s, p)
  }

  /** `has_subclauses`. */
  predicate HasSubclauses(s: string) {
    Found(|s|, SubclauseTest(s), 0)
  }

  /** The marker read off a piece of text `w`: "(" and blanks before `a`, a run
      of i/v/x from `a` to `b` (or a single letter at `a`), blanks from `b` on,
      and ")" last. */
  ghost predicate MarkerParts(w: string, a: nat, b: nat) {
    && 1 <= a < b < |w| && w[0] == '(' && w[|w| - 1] == ')'
    && (forall x :: 1 <= x < a ==> IsSpace(w[x]))
    && (forall x :: b <= x < |w| - 1 ==> IsSpace(w[x]))
    && ((forall x :: a <= x < b ==> InClass(w[x], SubclauseRoman)) || (b == a + 1 && IsLetter(w[a])))
  }

  /** `w` is a sub-clause marker such as "(ii)", "( b )" or "(IV)". */
  ghost predicate Marker(w: string) {
    exists a: nat, b: nat :: MarkerParts(w, a, b)
  }

  lemma MarkerFound(s: string, i: nat)
    requires i <= |s| && SubclauseAt(s, i)
    ensures exists j :: i < j <= |s| && Marker(s[i..j])
  {
    var j := Skip(s, i + 1, Space);
    var k := Skip(s, j, SubclauseRoman);
    if j < k && ClosesAt(s, k) {
      FoundAt(s, i, j, k);
    } else {
      FoundAt(s, i, j, j + 1);
    }
  }

  /** The marker test passed at `i` with blanks up to `j` and the inner run
      (i/v/x, or one letter) up to `e`: the marker ends after the ")" that
      follows `e`. */
  lemma FoundAt(s: string, i: nat, j: nat, e: nat)
    requires i < j < e <= |s| && s[i] == '(' && j == Skip(s, i + 1, Space) && ClosesAt(s, e)
    requires (forall x :: j <= x < e ==> InClass(s[x], SubclauseRoman)) || (e == j + 1 && IsLetter(s[j]))
    ensures Marker(s[i..Skip(s, e, Space) + 1])
  {
    PartsFromText(s, i, Skip(s, e, Space) + 1, j - i, e - i);
  }

  /** Parts located in `s` make `s[i..j]` a marker. */
  lemma PartsFromText(s: string, i: nat, j: nat, a: nat, b: nat)
    requires 1 <= a < b && i + b < j <= |s| && s[i] == '(' && s[j - 1] == ')'
    requires forall x :: i + 1 <= x < i + a ==> IsSpace(s[x])
    requires forall x :: i + b <= x < j - 1 ==> IsSpace(s[x])
    requires (forall x :: i + a <= x < i + b ==> InClass(s[x], SubclauseRoman)) || (b == a + 1 && IsLetter(s[i + a]))
    ensures MarkerParts(s[i..j], a, b)
  {
    var w := s[i..j];
    assert forall x :: 0 <= x < |w| ==> w[x] == s[i + x];
  }

  /** The parts of a marker `s[i..j]`, located in `s`. */
  lemma PartsInText(s: string, i: nat, j: nat, a: nat, b: nat)
    requires i < j <= |s| && MarkerParts(s[i..j], a, b)
    ensures i + b < j && s[i] == '(' && s[j - 1] == ')'
    ensures forall x :: i + 1 <= x < i + a ==> IsSpace(s[x])
    ensures forall x :: i + b <= x < j - 1 ==> IsSpace(s[x])
    ensures (forall x :: i + a <= x < i + b ==> InClass(s[x], SubclauseRoman)) || (b == a + 1 && IsLetter(s[i + a]))
  {
    var w := s[i..j];
    assert forall x :: 0 <= x < |w| ==> w[x] == s[i + x];
  }

  /** A marker located in `s` from `i` to `j` with an i/v/x run from `i + a`
      to `i + b` passes the marker test at `i`. */
  lemma RomanPartsMatch(s: string, i: nat, j: nat, a: nat, b: nat)
    requires 1 <= a < b && i + b < j <= |s| && s[i] == '(' && s[j - 1] == ')'
    requires forall x :: i + 1 <= x < i + a ==> IsSpace(s[x])
    requires forall x :: i + b <= x < j - 1 ==> IsSpace(s[x])
    requires forall x :: i + a <= x < i + b ==> InClass(s[x], SubclauseRoman)
    ensures SubclauseAt(s, i)
  {
    RomanRuns(s, i, j, a, b);
    RomanMarker(s, i, i + a, i + b);
  }

  /** The runs the marker test finds in such a marker. */
  lemma RomanRuns(s: string, i: nat, j: nat, a: nat, b: nat)
    requires 1 <= a < b && i + b < j <= |s| && s[i] == '(' && s[j - 1] == ')'
    requires forall x :: i + 1 <= x < i + a ==> IsSpace(s[x])
    requires forall x :: i + b <= x < j - 1 ==> IsSpace(s[x])
    requires forall x :: i + a <= x < i + b ==> InClass(s[x], SubclauseRoman)
    ensures Skip(s, i + 1, Space) == i + a && Skip(s, i + a, SubclauseRoman) == i + b && ClosesAt(s, i + b)
  {
    SkipTo(s, i + 1, i + a, Space);
    ClosesAfterBlanks(s, i + b, j - 1);
    SkipTo(s, i + a, i + b, SubclauseRoman);
  }

  /** A marker located in `s` from `i` to `j` with a letter at `i + a` passes
      the marker test at `i`. */
  lemma LetterPartsMatch(s: string, i: nat, j: nat, a: nat)
    requires 1 <= a && i + a + 1 < j <= |s| && s[i] == '(' && s[j - 1] == ')'
    requires forall x :: i + 1 <= x < i + a ==> IsSpace(s[x])
    requires forall x :: i + a + 1 <= x < j - 1 ==> IsSpace(s[x])
    requires IsLetter(s[i + a])
    ensures SubclauseAt(s, i)
  {
    SkipTo(s, i + 1, i + a, Space);
    ClosesAfterBlanks(s, i + a + 1, j - 1);
    LetterMarker(s, i, i + a);
  }

  /** Blanks from `k` to `m`, then ")" at `m`. */
  lemma ClosesAfterBlanks(s: string, k: nat, m: nat)
    requires k <= m < |s| && s[m] == ')'
    requires forall x :: k <= x < m ==> IsSpace(s[x])
    ensures ClosesAt(s, k)
    ensures !InClass(s[k], SubclauseRoman)
  {
    SkipTo(s, k, m, Space);
  }

  /** The marker test at `i` once its runs are known: blanks up to `j`, then
      the i/v/x run up to `k` and the closing. */
  lemma RomanMarker(s: string, i: nat, j: nat, k: nat)
    requires i < j < k <= |s| && s[i] == '(' && Skip(s, i + 1, Space) == j
    requires Skip(s, j, SubclauseRoman) == k && ClosesAt(s, k)
    ensures SubclauseAt(s, i)
  {
  }

  /** The marker test at `i` once its runs are known: blanks up to `j`, then
      a letter and the closing. */
  lemma LetterMarker(s: string, i: nat, j: nat)
    requires i < j < |s| && s[i] == '(' && Skip(s, i + 1, Space) == j
    requires IsLetter(s[j]) && ClosesAt(s, j + 1)
    ensures SubclauseAt(s, i)
  {
  }

  /** `has_subclauses` holds exactly when some piece of the text is a marker. */
  lemma HasSubclausesIff(s: string)
    ensures HasSubclauses(s) <==> exists i, j :: 0 <= i < j <= |s| && Marker(s[i..j])
  {
    FoundIff(|s|, SubclauseTest(s), 0);
    if HasSubclauses(s) {
      var p :| 0 <= p < |s| && SubclauseTest(s)(p);
      MarkerFound(s, p);
    }
    if exists i, j :: 0 <= i < j <= |s| && Marker(s[i..j]) {
      var i, j :| 0 <= i < j <= |s| && Marker(s[i..j]);
      var a, b :| MarkerParts(s[i..j], a, b);
      PartsInText(s, i, j, a, b);
      if forall x :: i + a <= x < i + b ==> InClass(s[x], SubclauseRoman) {
        RomanPartsMatch(s, i, j, a, b);
      } else {
        LetterPartsMatch(s, i, j, a);
      }
      assert SubclauseTest(s)(i);
    }
  }

  /** Without a "(" there is no marker. */
  lemma NoParenNoSubclauses(s: string)
    requires '(' !in s
    ensures !HasSubclauses(s)
  {
    FoundIff(|s|, SubclauseTest(s), 0);
    forall q | 0 <= q < |s| ensures !SubclauseTest(s)(q) {
      assert s[q] in s;
    }
  }

  /** "(i) item (ii) item" has sub-clauses; "First rule text" has none. */
  lemma SubclauseExamples()
    ensures HasSubclauses("(i) item (ii) item")
    ensures !HasSubclauses("First rule text")
  {
    var s := "(i) item (ii) item";
    SkipTo(s, 1, 1, Space);
    SkipTo(s, 1, 2, SubclauseRoman);
    SkipTo(s, 2, 2, Space);
    assert SubclauseTest(s)(0);
    NoParenNoSubclauses("First rule text");
  }

  // ================================================================ a worked example

  /** The first line of the example section, and the second. */
  const FirstLine: string := "1. First rule text"
  const SecondLine: string := "2. Second rule (i) item (ii) item"

  lemma ExampleLines()
    ensures |FirstLine| == 18 && |SecondLine| == 33
    ensures forall r :: 0 <= r < 18 ==> FirstLine[r] != '\n' && FirstLine[r] != '('
    ensures forall r :: 0 <= r < 33 ==> SecondLine[r] != '\n'
    ensures FirstLine[0] == '1' && FirstLine[1] == '.' && FirstLine[2] == ' ' && FirstLine[3] == 'F'
    ensures SecondLine[0] == '2' && SecondLine[1] == '.' && SecondLine[2] == ' ' && SecondLine[3] == 'S'
    ensures SecondLine[15] == '(' && SecondLine[16] == 'i' && SecondLine[17] == ')'
  {
  }

  /** What the example text looks like: two clause lines, "1. F…" and "2. S…". */
  ghost predicate ExampleShaped(s: string) {
    && |s| == 53
    && (forall q :: 0 <= q < |s| && LineStart(s, q) ==> q == 0 || q == 19)
    && s[0] == '1' && s[1] == '.' && s[2] == ' ' && s[3] == 'F'
    && s[18] == '\n' && s[19] == '2' && s[20] == '.' && s[21] == ' ' && s[22] == 'S'
  }

  lemma ExampleShape(s: string)
    requires s == FirstLine + "\n" + SecondLine + "\n"
    ensures ExampleShaped(s)
    ensures s[0..19] == FirstLine + "\n" && s[19..53] == SecondLine + "\n"
  {
    ExampleLines();
    assert forall r :: 0 <= r < 18 ==> s[r] == FirstLine[r];
    assert forall r :: 0 <= r < 33 ==> s[19 + r] == SecondLine[r];
  }

  /** The example text has no page-number line, so cleaning keeps it. */
  lemma ExampleClean(s: string)
    requires ExampleShaped(s)
    ensures CleanText(s) == s
  {
    SkipTo(s, 0, 1, Digit);
    SkipTo(s, 19, 20, Digit);
    assert NoDigitLine(s);
    CleanTextUnchanged(s);
  }

  /** The example text has two clause matches, at its two line starts. */
  lemma ExampleMatches(s: string)
    requires ExampleShaped(s)
    ensures ClauseMatches(s) == [ClauseMatch(0, "1", 3), ClauseMatch(19, "2", 22)]
  {
    var at := ClauseMatcher(s);
    var m0, m1 := ClauseMatch(0, "1", 3), ClauseMatch(19, "2", 22);
    ClauseMatcherAdvances(s);
    assert at(0) == Some(m0) by {
      ExampleMatchAt(s, 0, 1, m0);
    }
    assert at(19) == Some(m1) by {
      ExampleMatchAt(s, 19, 20, m1);
    }
    ExampleNoMatch(s, 3, 19);
    ExampleNoMatch(s, 22, 53);
    ScanSkip(|s|, at, ClauseStart, ClauseEnd, 3, 19);
    ScanSkip(|s|, at, ClauseStart, ClauseEnd, 22, 53);
    assert ScanFrom(|s|, at, ClauseStart, ClauseEnd, 19) == [m1];
  }

  /** Away from the two line starts of the example, no clause match begins. */
  lemma ExampleNoMatch(s: string, lo: nat, hi: nat)
    requires ExampleShaped(s) && (0 < lo <= hi <= 19 || 19 < lo <= hi <= 53)
    ensures forall r :: lo <= r < hi ==> ClauseMatcher(s)(r).None?
  {
  }

  /** The clause match at a line start `p` whose line reads digit, ".", blank, letter. */
  lemma ExampleMatchAt(s: string, p: nat, d: nat, m: ClauseMatch)
    requires p + 1 == d && d + 2 < |s| && LineStart(s, p)
    requires IsDigit(s[p]) && s[d - 1] == s[p] && s[d] == '.' && s[d + 1] == ' ' && IsLetter(s[d + 2])
    requires m == ClauseMatch(p, [s[p]], d + 2)
    ensures ClauseMatcher(s)(p) == Some(m)
  {
    SkipTo(s, p, p, Space);
    SkipTo(s, p, d, Digit);
    SkipTo(s, d + 1, d + 2, Space);
    assert s[p..d] == [s[p]];
  }

  /** Segmenting "1. First rule text\n2. Second rule (i) item (ii) item\n" gives
      clauses "1" and "2", of which only the second has sub-clauses. */
  lemma SegmentationExample()
    ensures ClausesOf(FirstLine + "\n" + SecondLine + "\n") == [Clause("1", FirstLine), Clause("2", SecondLine)]
    ensures !HasSubclauses(FirstLine) && HasSubclauses(SecondLine)
  {
    var s := FirstLine + "\n" + SecondLine + "\n";
    ExampleShape(s);
    ExampleClean(s);
    ExampleMatches(s);
    ExampleLinesTrimmed();
    ExampleClausesOf(s, FirstLine, SecondLine);
    ExampleSubclauses();
  }

  lemma ExampleLinesTrimmed()
    ensures FirstLine != [] && !IsSpace(FirstLine[0]) && !IsSpace(FirstLine[|FirstLine| - 1])
    ensures SecondLine != [] && !IsSpace(SecondLine[0]) && !IsSpace(SecondLine[|SecondLine| - 1])
  {
  }

  /** The example's two matches, both valid, slice it into its two lines. */
  lemma ExampleClausesOf(s: string, l1: string, l2: string)
    requires |s| == 53 && CleanText(s) == s
    requires s[0..19] == l1 + "\n" && s[19..53] == l2 + "\n"
    requires l1 != [] && !IsSpace(l1[0]) && !IsSpace(l1[|l1| - 1])
    requires l2 != [] && !IsSpace(l2[0]) && !IsSpace(l2[|l2| - 1])
    requires ClauseMatches(s) == [ClauseMatch(0, "1", 3), ClauseMatch(19, "2", 22)]
    ensures ClausesOf(s) == [Clause("1", l1), Clause("2", l2)]
  {
    var ms := ClauseMatches(s);
    var cands := Candidates(s, ms);
    assert KeptBy(ms, ValidMatch, 2) == [0, 1] by {
      ValidClauseNumberExamples();
      assert DigitsValue("2") == 2;
    }
    StripTrailingBlank(l1, '\n');
    StripTrailingBlank(l2, '\n');
    assert cands == [Clause("1", l1), Clause("2", l2)];
    assert Pick(cands, [0, 1]) == Pick(cands, [0]) + [cands[1]];
  }

  lemma ExampleSubclauses()
    ensures !HasSubclauses(FirstLine) && HasSubclauses(SecondLine)
  {
    ExampleNoParen();
    NoParenNoSubclauses(FirstLine);
    ExampleMarker();
  }

  lemma ExampleNoParen()
    ensures '(' !in FirstLine
  {
    ExampleLines();
  }

  lemma ExampleMarker()
    ensures HasSubclauses(SecondLine)
  {
    var t := SecondLine;
    ExampleLines();
    RomanPartsMatch(t, 15, 18, 1, 2);
    FoundIff(|t|, SubclauseTest(t), 0);
    assert SubclauseTest(t)(15);
  }

}
