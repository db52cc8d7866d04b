/**
 * The table-of-contents parser: chapter entries ("Chapter-" + roman numeral,
 * title, leader dots, page number) and section entries (a whole line holding
 * a capital letter and ".", a title and a page number), read from the text of
 * the first pages. Section entries are filtered for table-header artifacts
 * and their titles are cleared of leader dots.
 *
 * The regular expressions are modelled as scanners confined to one line: a
 * `\s` never crosses a newline here.
 */
module Toc {
  import opened Wrappers
  import opened Text
  import opened Structure
  import opened Seqs

  // ================================================================ chapters

  /** The three groups of a chapter-entry match: the "Chapter-" heading with its
      numeral, the title and the page digits. */
  datatype ChapterGroups = ChapterGroups(heading: string, title: string, page: Digits)

  const ChapterMarker: string := "Chapter-"

  /** The tail `\.+\s*(\d+)` of the chapter pattern tried at `e`: the position
      where the page digits begin. */
  function TailDigitsAt(s: string, e: nat): (g: Option<nat>)
    requires e <= |s|
    ensures g.Some? ==> e < g.value < |s| && IsDigit(s[g.value])
  {
    if e < |s| && s[e] == '.' then
      var g := Skip(s, Skip(s, e, Dot), LineSpace);
      if g < |s| && IsDigit(s[g]) then Some(g) else None
    else
      None
  }

  /** The first `e` in `[lo, hi)` where the tail matches: where the lazy title ends. */
  function FirstTail(s: string, lo: nat, hi: nat): (r: Option<nat>)
    requires lo <= hi <= |s|
    ensures r.Some? ==> lo <= r.value < hi && TailDigitsAt(s, r.value).Some?
    ensures r.Some? ==> forall e :: lo <= e < r.value ==> TailDigitsAt(s, e).None?
    ensures r.None? ==> forall e :: lo <= e < hi ==> TailDigitsAt(s, e).None?
    decreases hi - lo
  {
    if lo == hi then None
    else if TailDigitsAt(s, lo).Some? then Some(lo)
    else FirstTail(s, lo + 1, hi)
  }

  /** The span of the lazy title group `(.+?)` once the numeral ends at `q2` and
      the greedy `\s+` after it ends at `q3`; `le` ends the line. A title that
      cannot begin at `q3` may still be the last blank of that `\s+`. */
  function TitleSpan(s: string, q2: nat, q3: nat, le: nat): (r: Option<(nat, nat)>)
    requires q2 < q3 <= le <= |s|
    ensures r.Some? ==> q2 < r.value.0 < r.value.1 <= le && TailDigitsAt(s, r.value.1).Some?
  {
    var first := if q3 < le then FirstTail(s, q3 + 1, le) else None;
    if first.Some? then Some((q3, first.value))
    else if q3 >= q2 + 2 && TailDigitsAt(s, q3).Some? then Some((q3 - 1, q3))
    else None
  }

  /** `Chapter-\s*[IVXLC]+` followed by a blank, tried at `p`: where the numeral ends. */
  function HeadingEnd(s: string, p: nat): (q2: Option<nat>)
    requires p <= |s|
    ensures q2.Some? ==> p + |ChapterMarker| < q2.value < |s| && InClass(s[q2.value], LineSpace)
    ensures q2.Some? ==> s[p..q2.value][..|ChapterMarker|] == ChapterMarker
  {
    var n := |ChapterMarker|;
    if p + n <= |s| && s[p..p + n] == ChapterMarker then
      var q2 := Skip(s, Skip(s, p + n, LineSpace), ChapterRoman);
      if q2 == |s| || !InClass(s[q2], LineSpace) then None
      else if q2 == Skip(s, p + n, LineSpace) then None
      else
        assert s[p..q2][..n] == s[p..p + n];
        Some(q2)
    else
      None
  }

  /** `CHAPTER_TOC_REGEX` tried at `p`: the groups and the end of the match. */
  function ChapterMatchAt(s: string, p: nat): (r: Option<(ChapterGroups, nat)>)
    requires p <= |s|
    ensures r.Some? ==> p < r.value.1 <= |s|
    ensures r.Some? ==> |r.value.0.page| >= 1
    ensures r.Some? ==> |r.value.0.heading| > |ChapterMarker| && r.value.0.heading[..|ChapterMarker|] == ChapterMarker
  {
    match HeadingEnd(s, p)
    case None => None
    case Some(q2) =>
      var q3 := Skip(s, q2, LineSpace);
      match TitleSpan(s, q2, q3, LineEnd(s, q3))
      case None => None
      case Some((t0, t1)) =>
        var g := TailDigitsAt(s, t1).value;
        Some((ChapterGroups(s[p..q2], s[t0..t1], DigitRun(s, g)), Skip(s, g, Digit)))
  }

  /** `CHAPTER_TOC_REGEX.finditer(s)` from position `p`: every match in text order,
      each search resuming where the previous match ended. */
  function ChapterMatches(s: string, p: nat): (ms: seq<ChapterGroups>)
    requires p <= |s|
    ensures forall i :: 0 <= i < |ms| ==> |ms[i].page| >= 1
    decreases |s| - p
  {
    if p == |s| then []
    else
      match ChapterMatchAt(s, p)
      case Some((g, end)) => [g] + ChapterMatches(s, end)
      case None => ChapterMatches(s, p + 1)
  }

  /** The chapter record built from one match: heading and title stripped, page as an integer. */
  function ChapterEntry(g: ChapterGroups): Chapter
  {
    Chapter(Strip(g.heading), Strip(g.title), DigitsValue(g.page), None, [])
  }

  /** The chapter records of a list of matches, in order. */
  function ChapterEntries(ms: seq<ChapterGroups>): (cs: seq<Chapter>)
    ensures |cs| == |ms|
  {
    if ms == [] then [] else ChapterEntries(ms[..|ms| - 1]) + [ChapterEntry(ms[|ms| - 1])]
  }

  lemma ChapterEntriesStep(ms: seq<ChapterGroups>, i: nat)
    requires i < |ms|
    ensures ChapterEntries(ms[..i + 1]) == ChapterEntries(ms[..i]) + [ChapterEntry(ms[i])]
  {
    assert ms[..i + 1][..i] == ms[..i];
  }

  /** The `k`-th record is built from the `k`-th match. */
  lemma {:induction false} ChapterEntriesAt(ms: seq<ChapterGroups>, k: nat)
    requires k < |ms|
    ensures ChapterEntries(ms)[k] == ChapterEntry(ms[k])
  {
    if k < |ms| - 1 {
      ChapterEntriesAt(ms[..|ms| - 1], k);
    }
  }

  /** The chapters of a table of contents, one per match, in text order. */
  function TocChapters(toc: string): seq<Chapter> {
    ChapterEntries(ChapterMatches(toc, 0))
  }

  /** The first tail position is `t` when the tail matches there and nowhere
      in `[lo, t)`. */
  lemma FirstTailIs(s: string, lo: nat, t: nat, hi: nat)
    requires lo <= t < hi <= |s| && TailDigitsAt(s, t).Some?
    requires forall e :: lo <= e < t ==> s[e] != '.'
    ensures FirstTail(s, lo, hi) == Some(t)
  {
  }

  /** "Chapter-", a numeral up to `q2`, blanks up to `q3`: the heading ends at
      `q2` and the title may begin at `q3`. */
  lemma HeadingAt(s: string, p: nat, q2: nat, q3: nat)
    requires p + |ChapterMarker| < q2 < q3 < |s| && s[p..p + |ChapterMarker|] == ChapterMarker
    requires forall i :: p + |ChapterMarker| <= i < q2 ==> InClass(s[i], ChapterRoman)
    requires forall i :: q2 <= i < q3 ==> InClass(s[i], LineSpace)
    requires !IsSpace(s[q3])
    ensures HeadingEnd(s, p) == Some(q2) && Skip(s, q2, LineSpace) == q3
  {
    var n := |ChapterMarker|;
    SkipTo(s, p + n, p + n, LineSpace);
    SkipTo(s, p + n, q2, ChapterRoman);
    SkipTo(s, q2, q3, LineSpace);
  }

  /** Dots from `t` to `d`, blanks up to `g`, digits up to `e`, then the end of
      the line: the tail matches at `t` with the page digits `s[g..e]`. */
  lemma TailAt(s: string, t: nat, d: nat, g: nat, e: nat)
    requires t < d <= g < e < |s| && s[e] == '\n'
    requires forall i :: t <= i < d ==> s[i] == '.'
    requires forall i :: d <= i < g ==> InClass(s[i], LineSpace)
    requires forall i :: g <= i < e ==> IsDigit(s[i])
    ensures TailDigitsAt(s, t) == Some(g) && Skip(s, g, Digit) == e && DigitRun(s, g) == s[g..e]
  {
    SkipTo(s, t, d, Dot);
    SkipTo(s, d, g, LineSpace);
    SkipTo(s, g, e, Digit);
  }

  /** A chapter entry alone on a line of `s`: heading `s[p..q2]`, title
      `s[q3..t]` ending at the first tail, and the tail from `t` to the end of
      the line at `e`. The pattern matches at `p` with these groups and ends at `e`. */
  lemma ChapterLineMatch(s: string, p: nat, q2: nat, q3: nat, t: nat, g: nat, e: nat)
    requires p < q2 < q3 < t < g < e <= |s|
    requires HeadingEnd(s, p) == Some(q2) && Skip(s, q2, LineSpace) == q3
    requires TailDigitsAt(s, t) == Some(g) && Skip(s, g, Digit) == e
    requires LineEnd(s, q3) == e && FirstTail(s, q3 + 1, e) == Some(t)
    ensures ChapterMatchAt(s, p) == Some((ChapterGroups(s[p..q2], s[q3..t], DigitRun(s, g)), e))
  {
    assert TitleSpan(s, q2, q3, e) == Some((q3, t));
  }

  /** A title free of "." and newlines up to `t`, where the tail matches and
      which the end of the line `e` follows: the lazy title ends at `t`. */
  lemma TitleLine(s: string, q3: nat, t: nat, e: nat)
    requires q3 < t < e < |s| && s[e] == '\n' && TailDigitsAt(s, t).Some?
    requires forall i :: q3 <= i < e ==> s[i] != '\n'
    requires forall i :: q3 <= i < t ==> s[i] != '.'
    ensures LineEnd(s, q3) == e && FirstTail(s, q3 + 1, e) == Some(t)
  {
    SkipTo(s, q3, e, NotNewline);
    FirstTailIs(s, q3 + 1, t, e);
  }

  /** Two entries of a table of contents. */
  const TocLine1: string := "Chapter-I  Introduction.......... 1"
  const TocLine2: string := "Chapter-II  Definitions ...... 5"

  /** The facts about the first entry's characters that the pattern looks at. */
  lemma TocLine1Chars()
    ensures |TocLine1| == 35 && TocLine1[..8] == ChapterMarker && TocLine1[8] == 'I'
    ensures TocLine1[9] == ' ' && TocLine1[10] == ' ' && TocLine1[11] == 'I' && TocLine1[33] == ' ' && TocLine1[34] == '1'
    ensures forall i :: 11 <= i < 23 ==> TocLine1[i] != '.' && TocLine1[i] != '\n'
    ensures forall i :: 23 <= i < 33 ==> TocLine1[i] == '.'
    ensures TocLine1[..9] == "Chapter-I" && TocLine1[11..23] == "Introduction"
  {
    assert TocLine1 == "Chapter-I" + "  " + "Introduction" + ".........." + " 1";
  }

  lemma TocLine2Chars()
    ensures |TocLine2| == 32 && TocLine2[..8] == ChapterMarker && TocLine2[8] == 'I' && TocLine2[9] == 'I'
    ensures TocLine2[10] == ' ' && TocLine2[11] == ' ' && TocLine2[12] == 'D' && TocLine2[30] == ' ' && TocLine2[31] == '5'
    ensures forall i :: 12 <= i < 24 ==> TocLine2[i] != '.' && TocLine2[i] != '\n'
    ensures forall i :: 24 <= i < 30 ==> TocLine2[i] == '.'
    ensures TocLine2[..10] == "Chapter-II" && TocLine2[12..24] == "Definitions "
  {
  }

  lemma TocLine1Match(s: string)
    requires |s| > 35 && s[0..35] == TocLine1 && s[35] == '\n'
    ensures ChapterMatchAt(s, 0) == Some((ChapterGroups("Chapter-I", "Introduction", "1"), 35))
  {
    TocLine1Chars();
    assert forall i :: 0 <= i < 35 ==> s[i] == TocLine1[i];
    assert s[0..8] == ChapterMarker by {
      assert s[0..8] == TocLine1[..8];
    }
    HeadingAt(s, 0, 9, 11);
    TailAt(s, 23, 33, 34, 35);
    assert s[34..35] == "1";
    assert s[0..9] == "Chapter-I" by {
      assert s[0..9] == TocLine1[..9];
    }
    assert s[11..23] == "Introduction" by {
      assert s[11..23] == TocLine1[11..23];
    }
    TitleLine(s, 11, 23, 35);
    ChapterLineMatch(s, 0, 9, 11, 23, 34, 35);
  }

  lemma TocLine2Match(s: string)
    requires |s| > 68 && s[36..68] == TocLine2 && s[68] == '\n'
    ensures ChapterMatchAt(s, 36) == Some((ChapterGroups("Chapter-II", "Definitions ", "5"), 68))
  {
    TocLine2Chars();
    assert forall i :: 0 <= i < 32 ==> s[36 + i] == TocLine2[i];
    assert s[36..44] == ChapterMarker by {
      assert s[36..44] == TocLine2[..8];
    }
    HeadingAt(s, 36, 46, 48);
    TailAt(s, 60, 66, 67, 68);
    assert s[67..68] == "5";
    assert s[36..46] == "Chapter-II" by {
      assert s[36..46] == TocLine2[..10];
    }
    assert s[48..60] == "Definitions " by {
      assert s[48..60] == TocLine2[12..24];
    }
    TitleLine(s, 48, 60, 68);
    ChapterLineMatch(s, 36, 46, 48, 60, 67, 68);
  }

  /** The table of contents "Chapter-I  Introduction.......... 1" and
      "Chapter-II  Definitions ...... 5" gives two chapters, in that order:
      ("Chapter-I", "Introduction", 1) and ("Chapter-II", "Definitions", 5). */
  lemma TocChaptersExample()
    ensures TocChapters(TocLine1 + "\n" + TocLine2 + "\n") ==
      [Chapter("Chapter-I", "Introduction", 1, None, []), Chapter("Chapter-II", "Definitions", 5, None, [])]
  {
    var s := TocLine1 + "\n" + TocLine2 + "\n";
    ExampleTocText(s);
    TocLine1Match(s);
    TocLine2Match(s);
    var g1, g2 := ChapterGroups("Chapter-I", "Introduction", "1"), ChapterGroups("Chapter-II", "Definitions ", "5");
    ExampleTocMatches(s, g1, g2);
    ExampleEntries(g1, g2);
  }

  lemma ExampleTocText(s: string)
    requires s == TocLine1 + "\n" + TocLine2 + "\n"
    ensures |s| == 69 && s[0..35] == TocLine1 && s[35] == '\n' && s[36..68] == TocLine2 && s[68] == '\n'
  {
    TocLine1Chars();
    TocLine2Chars();
  }

  /** No match starts at a newline. */
  lemma NoChapterAt(s: string, p: nat)
    requires p < |s| && s[p] == '\n'
    ensures ChapterMatchAt(s, p).None?
  {
    if p + |ChapterMarker| <= |s| {
      assert s[p..p + |ChapterMarker|][0] == s[p];
    }
  }

  /** Two entries on consecutive lines, and nothing else, give two matches. */
  lemma ExampleTocMatches(s: string, g1: ChapterGroups, g2: ChapterGroups)
    requires |s| == 69 && s[35] == '\n' && s[68] == '\n'
    requires ChapterMatchAt(s, 0) == Some((g1, 35)) && ChapterMatchAt(s, 36) == Some((g2, 68))
    ensures ChapterMatches(s, 0) == [g1, g2]
  {
    NoChapterAt(s, 35);
    NoChapterAt(s, 68);
    assert ChapterMatches(s, 68) == [];
    assert ChapterMatches(s, 35) == [g2];
  }

  lemma ExampleEntries(g1: ChapterGroups, g2: ChapterGroups)
    requires g1 == ChapterGroups("Chapter-I", "Introduction", "1")
    requires g2 == ChapterGroups("Chapter-II", "Definitions ", "5")
    ensures ChapterEntries([g1, g2]) ==
      [Chapter("Chapter-I", "Introduction", 1, None, []), Chapter("Chapter-II", "Definitions", 5, None, [])]
  {
    StripNoEdgeSpace("Chapter-I");
    StripNoEdgeSpace("Introduction");
    StripNoEdgeSpace("Chapter-II");
    StripTrailingBlank("Definitions", ' ');
    assert "Definitions " == "Definitions" + [' '];
    assert DigitsValue("1") == 1 && DigitsValue("5") == 5;
    assert [g1, g2][..1] == [g1];
  }

  // ================================================================ sections

  /** The groups of a section-entry match: the heading ("A."), the title, the page digits. */
  datatype SectionGroups = SectionGroups(tag: string, title: string, page: Digits)

  /** `SECTION_TOC_REGEX` on one line: optional blanks, a capital letter and ".",
      blanks, a title, blanks, the page digits and optional trailing blanks. The
      lazy title group, stripped of the blanks around it, is what lies between
      the tag and the page digits. */
  function TocSectionLine(line: string): (r: Option<SectionGroups>)
    ensures r.Some? ==> |r.value.tag| == 2 && IsUpper(r.value.tag[0]) && r.value.tag[1] == '.'
    ensures r.Some? ==> |r.value.page| >= 1
  {
    var q := Skip(line, 0, LineSpace);
    if q + 1 < |line| && IsUpper(line[q]) && line[q + 1] == '.' then
      var rEnd := TrimRight(line, |line|);
      var d := SkipBack(line, rEnd, Digit);
      if d < rEnd && q + 4 <= d && IsSpace(line[q + 2]) && IsSpace(line[d - 1]) then
        Some(SectionGroups(line[q..q + 2], Strip(line[q + 2..d]), line[d..rEnd]))
      else
        None
    else
      None
  }

  /** The section-entry matches of a list of lines, in order. */
  function LineMatches(lines: seq<string>): (ms: seq<SectionGroups>)
    ensures |ms| <= |lines|
    ensures forall i :: 0 <= i < |ms| ==> |ms[i].page| >= 1
  {
    if lines == [] then []
    else
      var init := LineMatches(lines[..|lines| - 1]);
      match TocSectionLine(lines[|lines| - 1])
      case Some(g) => init + [g]
      case None => init
  }

  /** `SECTION_TOC_REGEX.finditer(toc)`. */
  function SectionMatches(toc: string): seq<SectionGroups> {
    LineMatches(Lines(toc))
  }

  /** `is_valid_section`: a title of at least five characters once stripped,
      and not one of the table-header words "no", "page", "sl". */
  predicate IsValidSection(sectionId: string, title: string) {
    if |Strip(title)| < 5 then false
    else if Strip(Lower(title)) in {"no", "page", "sl"} then false
    else true
  }

  lemma {:induction false} SkipSpaceLower(s: string, p: nat)
    requires p <= |s|
    ensures Skip(Lower(s), p, Space) == Skip(s, p, Space)
    decreases |s| - p
  {
    if p < |s| {
      assert IsSpace(Lower(s)[p]) == IsSpace(s[p]);
      SkipSpaceLower(s, p + 1);
    }
  }

  lemma {:induction false} TrimRightLower(s: string, j: nat)
    requires j <= |s|
    ensures TrimRight(Lower(s), j) == TrimRight(s, j)
  {
    if j > 0 {
      assert IsSpace(Lower(s)[j - 1]) == IsSpace(s[j - 1]);
      TrimRightLower(s, j - 1);
    }
  }

  /** The header-word test can never reject a title that passed the length
      test: validity is exactly "at least five characters once stripped". */
  lemma ValidSectionIsLength(sectionId: string, title: string)
    ensures IsValidSection(sectionId, title) <==> |Strip(title)| >= 5
  {
    SkipSpaceLower(title, 0);
    TrimRightLower(title, |title|);
    assert |Strip(Lower(title))| == |Strip(title)|;
  }

  /** Three dots start at position `i`. */
  predicate DotsAt(s: string, i: int) {
    0 <= i && i + 2 < |s| && s[i] == '.' && s[i + 1] == '.' && s[i + 2] == '.'
  }

  /** No run of three or more dots. */
  ghost predicate NoDotRun(s: string) {
    forall i :: !DotsAt(s, i)
  }

  /** Position `p` is not inside a run of dots (it starts one, or holds another character). */
  predicate AtRunBoundary(s: string, p: nat)
    requires p <= |s|
  {
    p == 0 || p == |s| || s[p - 1] != '.' || s[p] != '.'
  }

  /** `re.sub(r"\.{3,}", "", s[p:])`: every maximal run of three or more dots is
      removed; shorter runs and all other characters are kept. */
  function RemoveDotRuns(s: string, p: nat): (r: string)
    requires p <= |s| && AtRunBoundary(s, p)
    ensures NoDotRun(r)
    ensures p < |s| && s[p] != '.' ==> |r| > 0 && r[0] == s[p]
    decreases |s| - p
  {
    if p == |s| then []
    else if s[p] != '.' then
      var rest := RemoveDotRuns(s, p + 1);
      PrependNoDotRun([s[p]], rest);
      [s[p]] + rest
    else
      var q := Skip(s, p, Dot);
      var rest := RemoveDotRuns(s, q);
      if q - p >= 3 then rest
      else
        var run := s[p..q];
        assert rest != [] ==> rest[0] != '.';
        PrependNoDotRun(run, rest);
        run + rest
  }

  /** Fewer than three dots, or a single other character, put in front of a
      text that has no run of three dots and does not start with a dot, make no
      run of three dots. */
  lemma PrependNoDotRun(pre: string, rest: string)
    requires
      || (|pre| == 1 && pre[0] != '.')
      || (|pre| < 3 && (forall i :: 0 <= i < |pre| ==> pre[i] == '.') && (rest == [] || rest[0] != '.'))
    requires NoDotRun(rest)
    ensures NoDotRun(pre + rest)
  {
    var r := pre + rest;
    forall i ensures !DotsAt(r, i) {
      if i >= |pre| {
        assert DotsAt(r, i) == DotsAt(rest, i - |pre|);
      } else {
        assert pre != [] ==> r[0] == pre[0];
        assert rest != [] ==> r[|pre|] == rest[0];
      }
    }
  }

  /** `clean_section_title`. */
  function CleanSectionTitle(title: string): string {
    Strip(RemoveDotRuns(title, 0))
  }

  lemma NoDotRunInfix(s: string, i: nat, j: nat)
    requires i <= j <= |s| && NoDotRun(s)
    ensures NoDotRun(s[i..j])
  {
    forall k ensures !DotsAt(s[i..j], k) {
      if 0 <= k {
        assert DotsAt(s[i..j], k) ==> DotsAt(s, i + k);
      }
    }
  }

  /** A cleaned title holds no run of three or more dots and no edge whitespace. */
  lemma CleanSectionTitleShape(title: string)
    ensures NoDotRun(CleanSectionTitle(title))
    ensures var r := CleanSectionTitle(title); r == [] || (!IsSpace(r[0]) && !IsSpace(r[|r| - 1]))
  {
    var d := RemoveDotRuns(title, 0);
    NoDotRunInfix(d, StripStart(d), StripEnd(d));
  }

  /** In a text without a run of three dots, every run of dots is shorter than three. */
  lemma ShortDotRun(s: string, p: nat)
    requires p < |s| && NoDotRun(s)
    ensures Skip(s, p, Dot) - p < 3
  {
    assert !DotsAt(s, p);
  }

  /** On a text without a run of three dots, dot removal changes nothing. */
  lemma {:induction false} RemoveDotRunsNoRun(s: string, p: nat)
    requires p <= |s| && AtRunBoundary(s, p) && NoDotRun(s)
    ensures RemoveDotRuns(s, p) == s[p..]
    decreases |s| - p
  {
    if p < |s| {
      if s[p] != '.' {
        RemoveDotRunsNoRun(s, p + 1);
        KeepCharStep(s, p);
      } else {
        ShortDotRun(s, p);
        RemoveDotRunsNoRun(s, Skip(s, p, Dot));
        KeepRunStep(s, p);
      }
    }
  }

  lemma KeepCharStep(s: string, p: nat)
    requires p < |s| && s[p] != '.' && AtRunBoundary(s, p)
    requires RemoveDotRuns(s, p + 1) == s[p + 1..]
    ensures RemoveDotRuns(s, p) == s[p..]
  {
    assert s[p..] == [s[p]] + s[p + 1..];
  }

  lemma KeepRunStep(s: string, p: nat)
    requires p < |s| && s[p] == '.' && AtRunBoundary(s, p)
    requires Skip(s, p, Dot) - p < 3
    requires RemoveDotRuns(s, Skip(s, p, Dot)) == s[Skip(s, p, Dot)..]
    ensures RemoveDotRuns(s, p) == s[p..]
  {
    var q := Skip(s, p, Dot);
    assert s[p..] == s[p..q] + s[q..];
  }

  /** Cleaning a cleaned title changes nothing. */
  lemma CleanSectionTitleIdempotent(title: string)
    ensures CleanSectionTitle(CleanSectionTitle(title)) == CleanSectionTitle(title)
  {
    var r := CleanSectionTitle(title);
    CleanSectionTitleShape(title);
    RemoveDotRunsNoRun(r, 0);
    assert r[0..] == r;
    StripNoEdgeSpace(r);
  }

  /** The section record built from one match before its title is cleaned. */
  function SectionEntry(g: SectionGroups): Section
  {
    Section(g.tag, Strip(g.title), DigitsValue(g.page), None, None)
  }

  predicate Accepted(g: SectionGroups) {
    IsValidSection(g.tag, Strip(g.title))
  }

  /** The section record of every match, before filtering. */
  function Candidates(ms: seq<SectionGroups>): (secs: seq<Section>)
    ensures |secs| == |ms|
  {
    seq(|ms|, i requires 0 <= i < |ms| => SectionEntry(ms[i]))
  }

  /** A section with its title cleaned. */
  function CleanTitle(sec: Section): Section {
    sec.(sectionTitle := CleanSectionTitle(sec.sectionTitle))
  }

  /** The second loop: every title cleaned. */
  function CleanTitles(secs: seq<Section>): (r: seq<Section>)
    ensures |r| == |secs|
    ensures forall i :: 0 <= i < |r| ==> r[i] == CleanTitle(secs[i])
  {
    seq(|secs|, i requires 0 <= i < |secs| => CleanTitle(secs[i]))
  }

  /** One step of the cleaning loop: cleaning entry `k` extends the cleaned prefix by one. */
  lemma CleanStep(secs: seq<Section>, cur: seq<Section>, k: nat)
    requires |cur| == |secs| && k < |secs|
    requires cur[..k] == CleanTitles(secs)[..k] && cur[k..] == secs[k..]
    ensures var next := cur[k := CleanTitle(cur[k])];
      next[..k + 1] == CleanTitles(secs)[..k + 1] && next[k + 1..] == secs[k + 1..]
  {
    assert cur[k] == cur[k..][0];
  }

  /** The sections `parse_sections_from_toc` returns. */
  function TocSections(toc: string): seq<Section> {
    var ms := SectionMatches(toc);
    CleanTitles(Pick(Candidates(ms), KeptBy(ms, Accepted, |ms|)))
  }

  /** The properties of `parse_sections_from_toc` in one place: the `k`-th
      section comes from match `idx[k]`, in text order; the filter is applied to
      the title before cleaning; the cleaned title is kept; and every match that
      passes the filter is included. */
  lemma TocSectionsOrigin(toc: string) returns (idx: seq<nat>)
    ensures |idx| == |TocSections(toc)|
    ensures forall k, l :: 0 <= k < l < |idx| ==> idx[k] < idx[l]
    ensures forall k :: 0 <= k < |idx| ==>
      var m := SectionMatches(toc);
      idx[k] < |m| && |Strip(m[idx[k]].title)| >= 5 &&
      TocSections(toc)[k] == Section(m[idx[k]].tag, CleanSectionTitle(Strip(m[idx[k]].title)), DigitsValue(m[idx[k]].page), None, None)
    ensures forall i :: 0 <= i < |SectionMatches(toc)| && |Strip(SectionMatches(toc)[i].title)| >= 5 ==> i in idx
  {
    var ms := SectionMatches(toc);
    var cands := Candidates(ms);
    idx := PickKept(ms, cands, Accepted);
    var kept := Pick(cands, idx);
    assert TocSections(toc) == CleanTitles(kept);
    forall i | 0 <= i < |ms| ensures Accepted(ms[i]) <==> |Strip(ms[i].title)| >= 5 {
      AcceptedIsLength(ms[i]);
    }
  }

  /** The filter keeps a match exactly when its stripped title has at least five characters. */
  lemma AcceptedIsLength(g: SectionGroups)
    ensures Accepted(g) <==> |Strip(g.title)| >= 5
  {
    ValidSectionIsLength(g.tag, Strip(g.title));
    StripIdempotent(g.title);
  }
}
