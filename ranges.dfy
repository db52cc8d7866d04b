/**
 * Page-range inference: every chapter ends one page before the next chapter
 * starts, every section is attached to the first chapter whose range holds its
 * start page, and within a chapter every section ends one page before the next
 * section that starts on a later page.
 *
 * The Python functions write `end_page` and `sections` into the chapter and
 * section dictionaries they are given; here they return the updated records.
 */
module Ranges {
  import opened Wrappers
  import opened Text
  import opened Structure
  import opened Seqs
  import Toc

  // ================================================================ chapter ranges

  /** The last page of chapter `i`: one before the next chapter's first page, and
      the document's last page for the final chapter. */
  function ChapterEnd(chs: seq<Chapter>, i: nat, totalPages: int): int
    requires i < |chs|
  {
    if i + 1 < |chs| then chs[i + 1].startPage - 1 else totalPages
  }

  /** `add_chapter_ranges`: each chapter, in place and in list order, gets its
      `end_page`; nothing else changes. */
  method AddChapterRanges(chapters: seq<Chapter>, totalPages: int) returns (r: seq<Chapter>)
    ensures |r| == |chapters|
    ensures forall i :: 0 <= i < |r| ==> r[i] == chapters[i].(endPage := Some(ChapterEnd(chapters, i, totalPages)))
  {
    r := chapters;
    for i := 0 to |r|
      invariant |r| == |chapters|
      invariant forall k :: 0 <= k < i ==> r[k] == chapters[k].(endPage := Some(ChapterEnd(chapters, k, totalPages)))
      invariant forall k :: i <= k < |r| ==> r[k] == chapters[k]
    {
      var end;
      if i + 1 < |r| {
        end := r[i + 1].startPage - 1;
      } else {
        end := totalPages;
      }
      r := r[i := r[i].(endPage := Some(end))];
    }
  }

  /** The table of contents "Chapter-I  Introduction.......... 1" and
      "Chapter-II  Definitions ...... 5": chapter I covers pages 1 to 4, and
      chapter II runs from page 5 to the document's last page. */
  lemma TocRangesExample(totalPages: int)
    ensures |Toc.TocChapters(Toc.TocLine1 + "\n" + Toc.TocLine2 + "\n")| == 2
    ensures Toc.TocChapters(Toc.TocLine1 + "\n" + Toc.TocLine2 + "\n")[0].startPage == 1
    ensures ChapterEnd(Toc.TocChapters(Toc.TocLine1 + "\n" + Toc.TocLine2 + "\n"), 0, totalPages) == 4
    ensures Toc.TocChapters(Toc.TocLine1 + "\n" + Toc.TocLine2 + "\n")[1].startPage == 5
    ensures ChapterEnd(Toc.TocChapters(Toc.TocLine1 + "\n" + Toc.TocLine2 + "\n"), 1, totalPages) == totalPages
  {
    Toc.TocChaptersExample();
  }

  /** Chapter start pages strictly increase, and the last one is within the document. */
  predicate StartsIncrease(chs: seq<Chapter>, totalPages: int) {
    && (forall i, j :: 0 <= i < j < |chs| ==> chs[i].startPage < chs[j].startPage)
    && (|chs| > 0 ==> chs[|chs| - 1].startPage <= totalPages)
  }

  /** With increasing start pages, the chapter ranges are non-empty and
      contiguous: each chapter ends just before the next one starts, and the
      last one ends on the document's last page. */
  lemma ChapterRangesContiguous(chs: seq<Chapter>, totalPages: int, i: nat)
    requires StartsIncrease(chs, totalPages) && i < |chs|
    ensures chs[i].startPage <= ChapterEnd(chs, i, totalPages)
    ensures i + 1 < |chs| ==> ChapterEnd(chs, i, totalPages) + 1 == chs[i + 1].startPage
    ensures i + 1 == |chs| ==> ChapterEnd(chs, i, totalPages) == totalPages
  {
  }

  /** The chapter ranges partition the pages from the first chapter's start to
      the document's end: such a page lies in exactly one chapter's range. */
  lemma {:induction false} ChapterRangesPartition(chs: seq<Chapter>, totalPages: int, page: int) returns (i: nat)
    requires StartsIncrease(chs, totalPages) && |chs| > 0
    requires chs[0].startPage <= page <= totalPages
    ensures i < |chs| && chs[i].startPage <= page <= ChapterEnd(chs, i, totalPages)
    ensures forall j :: 0 <= j < |chs| && chs[j].startPage <= page <= ChapterEnd(chs, j, totalPages) ==> j == i
  {
    i := 0;
    while i + 1 < |chs| && chs[i + 1].startPage <= page
      invariant i < |chs| && chs[i].startPage <= page
      decreases |chs| - i
    {
      i := i + 1;
    }
  }

  // ================================================================ attaching sections

  /** `ch["start_page"] <= page <= ch["end_page"]`; a chapter without an end page
      holds no page. */
  predicate InChapter(ch: Chapter, page: int) {
    ch.endPage.Some? && ch.startPage <= page <= ch.endPage.value
  }

  /** Every chapter has its end page (`attach_sections_to_chapters` reads it). */
  predicate HasEnds(chs: seq<Chapter>) {
    forall j :: 0 <= j < |chs| ==> chs[j].endPage.Some?
  }

  /** The first chapter, from position `from` on, whose range holds `page`. */
  function Home(chs: seq<Chapter>, page: int, from: nat): (h: Option<nat>)
    requires from <= |chs|
    ensures h.Some? ==> from <= h.value < |chs| && InChapter(chs[h.value], page)
    decreases |chs| - from
  {
    if from == |chs| then None
    else if InChapter(chs[from], page) then Some(from)
    else Home(chs, page, from + 1)
  }

  /** `Home` is the first chapter in list order that holds the page, and there
      is none exactly when no chapter holds it. */
  lemma {:induction false} HomeIsFirst(chs: seq<Chapter>, page: int, from: nat)
    requires from <= |chs|
    ensures forall j :: from <= j < |chs| && InChapter(chs[j], page) ==>
      Home(chs, page, from).Some? && Home(chs, page, from).value <= j
    decreases |chs| - from
  {
    if from < |chs| && !InChapter(chs[from], page) {
      HomeIsFirst(chs, page, from + 1);
    }
  }

  /** The test that keeps a section in chapter `j`. */
  function BelongsTo(chs: seq<Chapter>, j: nat): Section -> bool {
    (s: Section) => Home(chs, s.startPage, 0) == Some(j)
  }

  /** The sections chapter `j` receives: those whose first holding chapter is `j`,
      in input order. */
  function Attached(chs: seq<Chapter>, secs: seq<Section>, j: nat): seq<Section> {
    Pick(secs, KeptBy(secs, BelongsTo(chs, j), |secs|))
  }

  /** Every chapter with its section list reset to empty. */
  function ResetSections(chs: seq<Chapter>): (r: seq<Chapter>)
    ensures |r| == |chs|
    ensures forall j :: 0 <= j < |r| ==> r[j] == chs[j].(sections := [])
  {
    seq(|chs|, j requires 0 <= j < |chs| => chs[j].(sections := []))
  }

  /** The chapters after the first `n` sections have been handed out in order:
      each goes to the end of its home chapter's list. */
  function AttachFirst(chs: seq<Chapter>, secs: seq<Section>, n: nat): (r: seq<Chapter>)
    requires n <= |secs|
    ensures |r| == |chs|
  {
    if n == 0 then ResetSections(chs)
    else
      var prev, s := AttachFirst(chs, secs, n - 1), secs[n - 1];
      match Home(chs, s.startPage, 0)
      case None => prev
      case Some(h) => prev[h := prev[h].(sections := prev[h].sections + [s])]
  }

  /** Handing out sections changes no chapter's identity, title or range. */
  lemma {:induction false} AttachFirstFrame(chs: seq<Chapter>, secs: seq<Section>, n: nat, j: nat)
    requires n <= |secs| && j < |chs|
    ensures AttachFirst(chs, secs, n)[j].(sections := []) == chs[j].(sections := [])
  {
    if n > 0 {
      AttachFirstFrame(chs, secs, n - 1, j);
    }
  }

  /** `attach_sections_to_chapters`: every chapter's section list is reset, then
      each section is appended to the first chapter whose range holds its start
      page; a section no chapter holds is dropped. */
  method AttachSectionsToChapters(chapters: seq<Chapter>, sections: seq<Section>) returns (r: seq<Chapter>)
    requires HasEnds(chapters)
    ensures r == AttachFirst(chapters, sections, |sections|)
  {
    r := chapters;
    for j := 0 to |r|
      invariant |r| == |chapters|
      invariant forall k :: 0 <= k < j ==> r[k] == chapters[k].(sections := [])
      invariant forall k :: j <= k < |r| ==> r[k] == chapters[k]
    {
      r := r[j := r[j].(sections := [])];
    }
    assert r == ResetSections(chapters);
    for i := 0 to |sections|
      invariant r == AttachFirst(chapters, sections, i)
    {
      var sec := sections[i];
      var j := 0;
      while j < |r|
        invariant 0 <= j <= |r| && r == AttachFirst(chapters, sections, i)
        invariant Home(chapters, sec.startPage, 0) == Home(chapters, sec.startPage, j)
      {
        AttachFirstFrame(chapters, sections, i, j);
        if r[j].startPage <= sec.startPage <= r[j].endPage.value {
          r := r[j := r[j].(sections := r[j].sections + [sec])];
          break;
        }
        j := j + 1;
      }
    }
  }

  /** Handing out the sections gives chapter `j` exactly those whose home is
      `j`, in input order, and leaves the rest of the chapter as it was. */
  lemma {:induction false} AttachFirstSections(chs: seq<Chapter>, secs: seq<Section>, n: nat, j: nat)
    requires n <= |secs| && j < |chs|
    ensures AttachFirst(chs, secs, n)[j].sections == Pick(secs, KeptBy(secs, BelongsTo(chs, j), n))
  {
    if n > 0 {
      AttachFirstSections(chs, secs, n - 1, j);
      var prev := AttachFirst(chs, secs, n - 1);
      var ok := BelongsTo(chs, j)(secs[n - 1]);
      PickStep(secs, secs, BelongsTo(chs, j), n - 1, prev[j].sections, ok);
      assert AttachFirst(chs, secs, n)[j].sections == if ok then prev[j].sections + [secs[n - 1]] else prev[j].sections;
    }
  }

  /** The chapters `attach_sections_to_chapters` returns, one at a time. */
  lemma AttachedChapter(chs: seq<Chapter>, secs: seq<Section>, j: nat)
    requires j < |chs|
    ensures AttachFirst(chs, secs, |secs|)[j] == chs[j].(sections := Attached(chs, secs, j))
  {
    AttachFirstSections(chs, secs, |secs|, j);
    AttachFirstFrame(chs, secs, |secs|, j);
  }

  /** What chapter `j` receives, stated without `KeptBy`: the sections at
      increasing positions `idx`, each of which has `j` as its first holding
      chapter, and no section with that home is missed. */
  lemma AttachedExact(chs: seq<Chapter>, secs: seq<Section>, j: nat) returns (idx: seq<nat>)
    ensures |Attached(chs, secs, j)| == |idx|
    ensures forall k :: 0 <= k < |idx| ==>
      idx[k] < |secs| && Attached(chs, secs, j)[k] == secs[idx[k]] && Home(chs, secs[idx[k]].startPage, 0) == Some(j)
    ensures forall k, l :: 0 <= k < l < |idx| ==> idx[k] < idx[l]
    ensures forall i :: 0 <= i < |secs| && Home(chs, secs[i].startPage, 0) == Some(j) ==> i in idx
  {
    idx := PickKept(secs, secs, BelongsTo(chs, j));
  }

  /** Every attached section starts inside its chapter's range, and it lands in
      no chapter before that one whose range also holds it. */
  lemma AttachedInRange(chs: seq<Chapter>, secs: seq<Section>, j: nat, k: nat)
    requires j < |chs| && k < |Attached(chs, secs, j)|
    ensures InChapter(chs[j], Attached(chs, secs, j)[k].startPage)
    ensures forall j' :: 0 <= j' < j ==> !InChapter(chs[j'], Attached(chs, secs, j)[k].startPage)
  {
    var idx := AttachedExact(chs, secs, j);
    var s := Attached(chs, secs, j)[k];
    HomeIsFirst(chs, s.startPage, 0);
  }

  /** No section lands in two chapters: the positions two chapters keep are disjoint. */
  lemma AttachedOnce(chs: seq<Chapter>, secs: seq<Section>, i: nat, j1: nat, j2: nat)
    requires i in KeptBy(secs, BelongsTo(chs, j1), |secs|) && i in KeptBy(secs, BelongsTo(chs, j2), |secs|)
    ensures j1 == j2
  {
    KeptByExact(secs, BelongsTo(chs, j1), |secs|);
    KeptByExact(secs, BelongsTo(chs, j2), |secs|);
  }

  /** A section no chapter holds is dropped: no chapter keeps its position. One
      that some chapter holds is kept by its home chapter. */
  lemma AttachedDropped(chs: seq<Chapter>, secs: seq<Section>, i: nat)
    requires i < |secs|
    ensures Home(chs, secs[i].startPage, 0).None? ==>
      forall j: nat :: i !in KeptBy(secs, BelongsTo(chs, j), |secs|)
    ensures Home(chs, secs[i].startPage, 0).Some? ==>
      i in KeptBy(secs, BelongsTo(chs, Home(chs, secs[i].startPage, 0).value), |secs|)
  {
    forall j: nat | i in KeptBy(secs, BelongsTo(chs, j), |secs|)
      ensures Home(chs, secs[i].startPage, 0) == Some(j)
    {
      KeptByExact(secs, BelongsTo(chs, j), |secs|);
    }
    if Home(chs, secs[i].startPage, 0).Some? {
      KeptByExact(secs, BelongsTo(chs, Home(chs, secs[i].startPage, 0).value), |secs|);
    }
  }

  // ================================================================ sorting sections

  /** The sort key `(s["start_page"], s["section_id"])`, compared as Python
      compares tuples: `x` sorts strictly before `y`. */
  predicate KeyLess(x: Section, y: Section) {
    x.startPage < y.startPage || (x.startPage == y.startPage && StrLess(x.sectionId, y.sectionId))
  }

  predicate SameKey(x: Section, y: Section) {
    x.startPage == y.startPage && x.sectionId == y.sectionId
  }

  /** Of two sections, either one sorts before the other or their keys are equal. */
  lemma KeyTrichotomy(x: Section, y: Section)
    ensures SameKey(x, y) || KeyLess(x, y) || KeyLess(y, x)
    ensures !(KeyLess(x, y) && KeyLess(y, x)) && !(SameKey(x, y) && KeyLess(x, y))
  {
    StrLessTotal(x.sectionId, y.sectionId);
    StrLessIrreflexive(x.sectionId);
  }

  lemma KeyLessTransitive(x: Section, y: Section, z: Section)
    requires KeyLess(x, y) && KeyLess(y, z)
    ensures KeyLess(x, z)
  {
    if x.startPage == y.startPage == z.startPage {
      StrLessTransitive(x.sectionId, y.sectionId, z.sectionId);
    }
  }

  /** No section sorts before an earlier one. */
  predicate Sorted(ss: seq<Section>) {
    forall i, j :: 0 <= i < j < |ss| ==> !KeyLess(ss[j], ss[i])
  }

  /** `x` placed into the sorted `ss` just before the first section that sorts
      after it, so behind every section with the same key. */
  function Insert(ss: seq<Section>, x: Section): seq<Section>
  {
    if ss == [] then [x]
    else if KeyLess(x, ss[0]) then [x] + ss
    else [ss[0]] + Insert(ss[1..], x)
  }

  lemma {:induction false} InsertPermutes(ss: seq<Section>, x: Section)
    ensures multiset(Insert(ss, x)) == multiset(ss) + multiset{x}
  {
    if ss != [] && !KeyLess(x, ss[0]) {
      InsertPermutes(ss[1..], x);
      assert ss == [ss[0]] + ss[1..];
    }
  }

  /** A section that sorts after none of a sorted list can go in front of it. */
  lemma PrependSorted(x: Section, ss: seq<Section>)
    requires Sorted(ss) && forall e :: e in ss ==> !KeyLess(e, x)
    ensures Sorted([x] + ss)
  {
    var r := [x] + ss;
    forall i, j | 0 <= i < j < |r| ensures !KeyLess(r[j], r[i]) {
      assert r[j] == ss[j - 1];
      if i > 0 {
        assert r[i] == ss[i - 1];
      }
    }
  }

  /** Nothing in a sorted list sorts before a section that sorts before its head. */
  lemma BeforeHead(ss: seq<Section>, x: Section)
    requires Sorted(ss) && ss != [] && KeyLess(x, ss[0])
    ensures forall e :: e in ss ==> !KeyLess(e, x)
  {
    forall e | e in ss ensures !KeyLess(e, x) {
      var j :| 0 <= j < |ss| && ss[j] == e;
      KeyTrichotomy(e, ss[0]);
      if KeyLess(e, x) {
        KeyLessTransitive(e, x, ss[0]);
      }
    }
  }

  lemma {:induction false} InsertSorted(ss: seq<Section>, x: Section)
    requires Sorted(ss)
    ensures Sorted(Insert(ss, x))
  {
    if ss != [] {
      if KeyLess(x, ss[0]) {
        BeforeHead(ss, x);
        PrependSorted(x, ss);
      } else {
        var tail := ss[1..];
        InsertSorted(tail, x);
        var t := Insert(tail, x);
        InsertPermutes(tail, x);
        forall e | e in t ensures !KeyLess(e, ss[0]) {
          assert e in multiset(t);
          if e != x {
            assert e in tail;
          }
        }
        PrependSorted(ss[0], t);
      }
    }
  }

  /** `sorted(sections, key=...)`: Python's sort is stable, so it equals
      inserting the sections one after another. */
  function SortSections(ss: seq<Section>): (r: seq<Section>)
  {
    if ss == [] then [] else Insert(SortSections(ss[..|ss| - 1]), ss[|ss| - 1])
  }

  /** The sorted list is ordered by key and is a permutation of the input. */
  lemma {:induction false} SortSectionsSorted(ss: seq<Section>)
    ensures Sorted(SortSections(ss))
    ensures multiset(SortSections(ss)) == multiset(ss)
  {
    if ss != [] {
      var init := ss[..|ss| - 1];
      SortSectionsSorted(init);
      InsertSorted(SortSections(init), ss[|ss| - 1]);
      InsertPermutes(SortSections(init), ss[|ss| - 1]);
      assert ss == init + [ss[|ss| - 1]];
    }
  }

  // ---------------------------------------------------------------- stability

  /** The sections whose key equals `k`'s, in list order. */
  function WithKey(ss: seq<Section>, k: Section): seq<Section> {
    if ss == [] then [] else (if SameKey(ss[0], k) then [ss[0]] else []) + WithKey(ss[1..], k)
  }

  lemma {:induction false} WithKeyAppend(a: seq<Section>, b: seq<Section>, k: Section)
    ensures WithKey(a + b, k) == WithKey(a, k) + WithKey(b, k)
  {
    if a == [] {
      assert a + b == b;
    } else {
      WithKeyAppend(a[1..], b, k);
      assert (a + b)[1..] == a[1..] + b;
      var h := if SameKey(a[0], k) then [a[0]] else [];
      assert h + (WithKey(a[1..], k) + WithKey(b, k)) == (h + WithKey(a[1..], k)) + WithKey(b, k);
    }
  }

  lemma {:induction false} WithKeyNone(ss: seq<Section>, k: Section)
    requires forall e :: e in ss ==> !SameKey(e, k)
    ensures WithKey(ss, k) == []
  {
    if ss != [] {
      assert ss[0] in ss;
      assert forall e :: e in ss[1..] ==> e in ss;
      WithKeyNone(ss[1..], k);
    }
  }

  /** A section that sorts before the head of a sorted list shares its key with
      none of it. */
  lemma InsertFrontWithKey(ss: seq<Section>, x: Section, k: Section)
    requires Sorted(ss) && ss != [] && KeyLess(x, ss[0])
    ensures WithKey([x] + ss, k) == WithKey(ss, k) + (if SameKey(x, k) then [x] else [])
  {
    assert ([x] + ss)[1..] == ss;
    if SameKey(x, k) {
      forall e | e in ss ensures !SameKey(e, k) {
        var j :| 0 <= j < |ss| && ss[j] == e;
        KeyTrichotomy(ss[0], ss[0]);
      }
      WithKeyNone(ss, k);
    } else {
      assert WithKey(ss, k) + [] == WithKey(ss, k);
    }
  }

  lemma InsertConsWithKey(ss: seq<Section>, x: Section, k: Section, t: seq<Section>, last: seq<Section>)
    requires ss != [] && WithKey(t, k) == WithKey(ss[1..], k) + last
    ensures WithKey([ss[0]] + t, k) == WithKey(ss, k) + last
  {
    assert ([ss[0]] + t)[1..] == t;
    var h := if SameKey(ss[0], k) then [ss[0]] else [];
    assert h + (WithKey(ss[1..], k) + last) == (h + WithKey(ss[1..], k)) + last;
  }

  /** Inserting into a sorted list puts `x` behind every section with its key. */
  lemma {:induction false} WithKeyInsert(ss: seq<Section>, x: Section, k: Section)
    requires Sorted(ss)
    ensures WithKey(Insert(ss, x), k) == WithKey(ss, k) + (if SameKey(x, k) then [x] else [])
  {
    if ss == [] {
      assert WithKey([x], k) == (if SameKey(x, k) then [x] else []) + WithKey([], k);
    } else if KeyLess(x, ss[0]) {
      InsertFrontWithKey(ss, x, k);
    } else {
      WithKeyInsert(ss[1..], x, k);
      InsertConsWithKey(ss, x, k, Insert(ss[1..], x), if SameKey(x, k) then [x] else []);
    }
  }

  /** `sorted` is stable: the sections sharing a key keep their input order. */
  lemma {:induction false} SortSectionsStable(ss: seq<Section>, k: Section)
    ensures WithKey(SortSections(ss), k) == WithKey(ss, k)
  {
    if ss != [] {
      var init, last := ss[..|ss| - 1], ss[|ss| - 1];
      var own := if SameKey(last, k) then [last] else [];
      assert WithKey(ss, k) == WithKey(init, k) + own by {
        assert WithKey([last], k) == own + WithKey([], k);
        assert ss == init + [last];
        WithKeyAppend(init, [last], k);
      }
      SortSectionsStable(init, k);
      SortSectionsSorted(init);
      WithKeyInsert(SortSections(init), last, k);
    }
  }

  // ================================================================ section ranges

  /** The end page `add_section_ranges` gives section `i` of the sorted list,
      scanning from position `from`: one before the first start page greater
      than its own, else `chapterEnd`. */
  function SectionEnd(ss: seq<Section>, i: nat, from: nat, chapterEnd: int): int
    requires i < |ss| && from <= |ss|
    decreases |ss| - from
  {
    if from == |ss| then chapterEnd
    else if ss[from].startPage > ss[i].startPage then ss[from].startPage - 1
    else SectionEnd(ss, i, from + 1, chapterEnd)
  }

  /** Every section of `ss` with its end page. */
  function WithSectionEnds(ss: seq<Section>, chapterEnd: int): (r: seq<Section>)
    ensures |r| == |ss|
  {
    seq(|ss|, i requires 0 <= i < |ss| => ss[i].(endPage := Some(SectionEnd(ss, i, i + 1, chapterEnd))))
  }

  /** The chapter `add_section_ranges` returns. */
  function SectionRanges(ch: Chapter, totalPages: int): Chapter {
    ch.(sections := WithSectionEnds(SortSections(ch.sections), ch.endPage.GetOr(totalPages)))
  }

  /** `add_section_ranges`: the chapter's sections, sorted by `(start_page,
      section_id)`, each given the page before the next greater start page as
      its end page, or the chapter's end page (`total_pages` when it has none). */
  method AddSectionRanges(chapter: Chapter, totalPages: int) returns (r: Chapter)
    ensures r == SectionRanges(chapter, totalPages)
  {
    var sorted := SortSections(chapter.sections);
    var sections := sorted;
    for i := 0 to |sections|
      invariant |sections| == |sorted|
      invariant forall k :: 0 <= k < i ==> sections[k] == WithSectionEnds(sorted, chapter.endPage.GetOr(totalPages))[k]
      invariant forall k :: i <= k < |sections| ==> sections[k] == sorted[k]
    {
      var start := sections[i].startPage;
      var end := chapter.endPage.GetOr(totalPages);
      var j := i + 1;
      while j < |sections|
        invariant i + 1 <= j <= |sections|
        invariant end == chapter.endPage.GetOr(totalPages)
        invariant SectionEnd(sorted, i, i + 1, end) == SectionEnd(sorted, i, j, end)
      {
        var nextStart := sections[j].startPage;
        if nextStart > start {
          end := nextStart - 1;
          break;
        }
        j := j + 1;
      }
      sections := sections[i := sections[i].(endPage := Some(end))];
    }
    r := chapter.(sections := sections);
  }

  /** The scan behind `SectionEnd`: it stops at the first position from `from`
      on whose start page is greater than section `i`'s, and falls back to
      `chapterEnd` when there is none. */
  lemma {:induction false} SectionEndScan(ss: seq<Section>, i: nat, from: nat, chapterEnd: int) returns (next: Option<nat>)
    requires i < |ss| && from <= |ss|
    ensures next.Some? ==>
      && from <= next.value < |ss| && ss[next.value].startPage > ss[i].startPage
      && (forall k :: from <= k < next.value ==> ss[k].startPage <= ss[i].startPage)
      && SectionEnd(ss, i, from, chapterEnd) == ss[next.value].startPage - 1
    ensures next.None? ==>
      && (forall k :: from <= k < |ss| ==> ss[k].startPage <= ss[i].startPage)
      && SectionEnd(ss, i, from, chapterEnd) == chapterEnd
    decreases |ss| - from
  {
    if from == |ss| {
      next := None;
    } else if ss[from].startPage > ss[i].startPage {
      next := Some(from);
    } else {
      next := SectionEndScan(ss, i, from + 1, chapterEnd);
    }
  }

  /** Section `i` ends one page before the first later section that starts on a
      greater page, and with the chapter when no later section does. */
  lemma SectionEndIsNextGreater(ss: seq<Section>, i: nat, chapterEnd: int) returns (next: Option<nat>)
    requires i < |ss|
    ensures next.Some? ==>
      && i < next.value < |ss| && ss[next.value].startPage > ss[i].startPage
      && (forall k :: i < k < next.value ==> ss[k].startPage <= ss[i].startPage)
      && SectionEnd(ss, i, i + 1, chapterEnd) == ss[next.value].startPage - 1
    ensures next.None? ==>
      && (forall k :: i < k < |ss| ==> ss[k].startPage <= ss[i].startPage)
      && SectionEnd(ss, i, i + 1, chapterEnd) == chapterEnd
  {
    next := SectionEndScan(ss, i, i + 1, chapterEnd);
  }

  /** In a sorted list start pages never decrease. */
  lemma SortedStarts(ss: seq<Section>, a: nat, b: nat)
    requires Sorted(ss) && a <= b < |ss|
    ensures ss[a].startPage <= ss[b].startPage
  {
    if a < b {
      assert !KeyLess(ss[b], ss[a]);
    }
  }

  /** The scan only looks at section `i`'s start page. */
  lemma {:induction false} SectionEndSameStart(ss: seq<Section>, i: nat, k: nat, from: nat, chapterEnd: int)
    requires i < |ss| && k < |ss| && from <= |ss| && ss[i].startPage == ss[k].startPage
    ensures SectionEnd(ss, i, from, chapterEnd) == SectionEnd(ss, k, from, chapterEnd)
    decreases |ss| - from
  {
    if from < |ss| {
      SectionEndSameStart(ss, i, k, from + 1, chapterEnd);
    }
  }

  /** Positions whose start page is not greater do not stop the scan. */
  lemma {:induction false} SectionEndSkip(ss: seq<Section>, i: nat, from: nat, upto: nat, chapterEnd: int)
    requires i < |ss| && from <= upto <= |ss|
    requires forall m :: from <= m < upto ==> ss[m].startPage <= ss[i].startPage
    ensures SectionEnd(ss, i, from, chapterEnd) == SectionEnd(ss, i, upto, chapterEnd)
    decreases upto - from
  {
    if from < upto {
      SectionEndSkip(ss, i, from + 1, upto, chapterEnd);
    }
  }

  /** Sections of a sorted list that share a start page share an end page. */
  lemma SameStartSameEnd(ss: seq<Section>, i: nat, k: nat, chapterEnd: int)
    requires Sorted(ss) && i < k < |ss| && ss[i].startPage == ss[k].startPage
    ensures SectionEnd(ss, i, i + 1, chapterEnd) == SectionEnd(ss, k, k + 1, chapterEnd)
  {
    forall m | i + 1 <= m < k + 1 ensures ss[m].startPage <= ss[i].startPage {
      SortedStarts(ss, m, k);
    }
    SectionEndSkip(ss, i, i + 1, k + 1, chapterEnd);
    SectionEndSameStart(ss, i, k, k + 1, chapterEnd);
  }

  /** Every section of a chapter starts inside the chapter's range. */
  predicate SectionsInside(ch: Chapter) {
    ch.endPage.Some? && forall s :: s in ch.sections ==> InChapter(ch, s.startPage)
  }

  /** When every section starts inside its chapter, `add_section_ranges` gives
      every section a range that nests inside the chapter's. */
  lemma SectionRangesNest(ch: Chapter, totalPages: int, k: nat)
    requires SectionsInside(ch) && k < |SectionRanges(ch, totalPages).sections|
    ensures var s := SectionRanges(ch, totalPages).sections[k];
      ch.startPage <= s.startPage <= s.endPage.value <= ch.endPage.value
  {
    var ss := SortSections(ch.sections);
    SortSectionsSorted(ch.sections);
    assert ss[k] in multiset(ch.sections);
    var next := SectionEndIsNextGreater(ss, k, ch.endPage.value);
    if next.Some? {
      assert ss[next.value] in multiset(ch.sections);
    }
  }

  /** The sections of a chapter after `add_section_ranges` are sorted by key. */
  lemma SectionRangesSorted(ch: Chapter, totalPages: int)
    ensures Sorted(SectionRanges(ch, totalPages).sections)
    ensures |SectionRanges(ch, totalPages).sections| == |ch.sections|
  {
    SortSectionsSorted(ch.sections);
    assert |multiset(SortSections(ch.sections))| == |multiset(ch.sections)|;
  }

  /** Attaching the sections and then computing their ranges nests every
      section's range inside its chapter's. */
  lemma AttachedRangesNest(chs: seq<Chapter>, secs: seq<Section>, totalPages: int, j: nat, k: nat)
    requires HasEnds(chs) && j < |chs|
    requires k < |SectionRanges(AttachFirst(chs, secs, |secs|)[j], totalPages).sections|
    ensures var s := SectionRanges(AttachFirst(chs, secs, |secs|)[j], totalPages).sections[k];
      chs[j].startPage <= s.startPage <= s.endPage.value <= chs[j].endPage.value
  {
    AttachedChapter(chs, secs, j);
    var ch := AttachFirst(chs, secs, |secs|)[j];
    forall s | s in ch.sections ensures InChapter(ch, s.startPage) {
      var m :| 0 <= m < |ch.sections| && ch.sections[m] == s;
      AttachedInRange(chs, secs, j, m);
    }
    SectionRangesNest(ch, totalPages, k);
  }
}
