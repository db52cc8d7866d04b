/**
 * Chunk assembly: every accepted clause of every section of every chapter
 * becomes one retrieval record, carrying a deterministic identifier built from
 * the chapter's numeral, the section label and the clause number, plus the
 * document's and the section's metadata.
 */
module Chunks {
  import opened Wrappers
  import opened Text
  import opened Structure
  import opened Pages
  import opened Roman
  import opened Clauses
  import opened Seqs

  // ================================================================ extract_section_text

  function Min(a: int, b: int): (m: int)
    ensures m <= a && m <= b && (m == a || m == b)
  {
    if a <= b then a else b
  }

  /** What `extract_section_text` returns: the stored text if the splitter
      stored one, otherwise the pages of the section's range, cut off at the
      last content page; stripped either way. A section needs one or the other. */
  function SectionText(sec: Section, pageMap: map<int, string>, maxContentPage: int): string
    requires sec.text.Some? || sec.endPage.Some?
  {
    if sec.text.Some? then Strip(sec.text.value)
    else Strip(PagesText(pageMap, sec.startPage, Min(sec.endPage.value, maxContentPage)))
  }

  method ExtractSectionText(sec: Section, pageMap: map<int, string>, maxContentPage: int) returns (text: string)
    requires sec.text.Some? || sec.endPage.Some?
    ensures text == SectionText(sec, pageMap, maxContentPage)
  {
    if sec.text.Some? {
      return Strip(sec.text.value);
    }
    var endPage := Min(sec.endPage.value, maxContentPage);
    var raw := ConcatPages(pageMap, sec.startPage, endPage);
    text := Strip(raw);
  }

  /** A section's text depends on nothing but its stored text, if it has one,
      and otherwise on the pages from its first page to its last page or the
      last content page, whichever comes first: pages past the last content
      page never contribute. */
  lemma SectionTextFrame(sec: Section, m: map<int, string>, m': map<int, string>, maxContentPage: int, maxContentPage': int)
    requires sec.text.Some? || sec.endPage.Some?
    requires sec.text.None? ==> maxContentPage == maxContentPage'
    requires sec.text.None? ==> forall p :: sec.startPage <= p <= Min(sec.endPage.value, maxContentPage) ==> PageText(m, p) == PageText(m', p)
    ensures SectionText(sec, m, maxContentPage) == SectionText(sec, m', maxContentPage')
  {
    if sec.text.None? {
      PagesTextFrame(m, m', sec.startPage, Min(sec.endPage.value, maxContentPage));
    }
  }

  // ================================================================ identifiers

  /** The chapter part of an identifier: "ch" and the value of the numeral after
      the last "-" when that value is positive, the lower-cased chapter id otherwise. */
  function ChapterKey(chapterId: string): string {
    var n := RomanNumber(LastSegment(chapterId, '-'));
    if n > 0 then "ch" + NatToString(n) else Lower(chapterId)
  }

  const IdPrefix := "rbi_cb_gov_"

  function ChunkId(chapterKey: string, sectionId: string, clauseNumber: string): string {
    IdPrefix + chapterKey + "_sec" + sectionId + "_clause" + clauseNumber
  }

  /** The part of `a + [sep] + b` after its last `sep` is `b`, when `b` has none. */
  lemma {:induction false} LastSegmentAfter(a: string, b: string, sep: char)
    requires sep !in b
    ensures LastSegment(a + [sep] + b, sep) == b
    decreases |b|
  {
    var s := a + [sep] + b;
    if b != [] {
      var b' := b[..|b| - 1];
      assert s[..|s| - 1] == a + [sep] + b';
      assert s[|s| - 1] == b[|b| - 1];
      assert b[|b| - 1] in b;
      LastSegmentAfter(a, b', sep);
      assert b' + [b[|b| - 1]] == b;
    }
  }

  /** A chapter id ending in "-" and the standard numeral of `n >= 1` gets the key "ch" + `n`. */
  lemma ChapterKeyOfNumeral(prefix: string, n: nat)
    requires n >= 1
    ensures ChapterKey(prefix + "-" + Encode(n, 0)) == "ch" + NatToString(n)
  {
    var e := Encode(n, 0);
    assert forall k :: 0 <= k < |e| ==> e[k] != '-';
    LastSegmentAfter(prefix, e, '-');
    RomanRoundTrip(n);
  }

  /** Within one chapter and section, clause numbers determine identifiers:
      different numbers give different identifiers. */
  lemma ChunkIdInjective(chapterKey: string, sectionId: string, a: string, b: string)
    requires ChunkId(chapterKey, sectionId, a) == ChunkId(chapterKey, sectionId, b)
    ensures a == b
  {
    var p := IdPrefix + chapterKey + "_sec" + sectionId + "_clause";
    assert ChunkId(chapterKey, sectionId, a) == p + a;
    assert ChunkId(chapterKey, sectionId, b) == p + b;
    assert a == (p + a)[|p|..];
  }

  /** The chapter id "Chapter-III" has the key "ch3". */
  lemma ChapterKeyExample()
    ensures ChapterKey("Chapter-III") == "ch3"
  {
    assert "Chapter-III" == "Chapter" + ['-'] + "III";
    LastSegmentAfter("Chapter", "III", '-');
    RomanEdgeExamples();
    assert NatToString(3) == "3";
  }

  /** Chapter key "ch3", section id "B" and clause "7" give "rbi_cb_gov_ch3_secB_clause7". */
  lemma ChunkIdExample()
    ensures ChunkId("ch3", "B", "7") == "rbi_cb_gov_ch3_secB_clause7"
  {
    assert IdPrefix + "ch3" == "rbi_cb_gov_ch3";
    assert "rbi_cb_gov_ch3" + "_sec" == "rbi_cb_gov_ch3_sec";
    assert "rbi_cb_gov_ch3_sec" + "B" == "rbi_cb_gov_ch3_secB";
    assert "rbi_cb_gov_ch3_secB" + "_clause" == "rbi_cb_gov_ch3_secB_clause";
  }

  /** The section id "B." loses its dot. */
  lemma SectionIdExample()
    ensures RemoveChar("B.", '.') == "B"
  {
    assert "B."[1..] == ".";
    assert "."[1..] == "";
  }

  // ================================================================ records

  datatype DocMeta = DocMeta(title: string, regulator: string, jurisdiction: string, pdfName: string)

  /** The metadata of a chunk; `pdf` and `pageRange` make up its `source` entry. */
  datatype ChunkMeta = ChunkMeta(
    docTitle: string,
    regulator: string,
    jurisdiction: string,
    chapterId: string,
    chapterTitle: string,
    sectionId: string,
    sectionTitle: string,
    clauseNumber: Digits,
    hasSubclauses: bool,
    pageStart: int,
    pageEnd: int,
    pdf: string,
    pageRange: seq<int>)

  datatype Chunk = Chunk(id: string, text: string, metadata: ChunkMeta)

  /** The record `build_chunks` writes for one clause, given the chapter key
      and the section id it has computed. */
  function MakeChunk(meta: DocMeta, ch: Chapter, chapterKey: string, sec: Section, sectionId: string, clause: Clause): Chunk
    requires sec.endPage.Some?
  {
    Chunk(
      ChunkId(chapterKey, sectionId, clause.number),
      clause.text,
      ChunkMeta(meta.title, meta.regulator, meta.jurisdiction, ch.chapterId, ch.chapterTitle,
                sectionId, sec.sectionTitle, clause.number, HasSubclauses(clause.text),
                sec.startPage, sec.endPage.value, meta.pdfName, [sec.startPage, sec.endPage.value]))
  }

  /** The chunk of one clause of section `sec` of chapter `ch`, whose key is `chapterKey`. */
  function ClauseChunk(meta: DocMeta, ch: Chapter, chapterKey: string, sec: Section, clause: Clause): Chunk
    requires sec.endPage.Some?
  {
    MakeChunk(meta, ch, chapterKey, sec, RemoveChar(sec.sectionId, '.'), clause)
  }

  /** Every section of the chapter has an end page (`build_chunks` reads it). */
  predicate SectionsEnded(ch: Chapter) {
    forall s :: 0 <= s < |ch.sections| ==> ch.sections[s].endPage.Some?
  }

  predicate AllEnded(chapters: seq<Chapter>) {
    forall c :: 0 <= c < |chapters| ==> SectionsEnded(chapters[c])
  }

  /** The chunks of a list of clauses of one section, in clause order. */
  function ClauseChunks(meta: DocMeta, ch: Chapter, chapterKey: string, sec: Section, clauses: seq<Clause>): (cs: seq<Chunk>)
    requires sec.endPage.Some?
    ensures |cs| == |clauses|
  {
    seq(|clauses|, k requires 0 <= k < |clauses| => ClauseChunk(meta, ch, chapterKey, sec, clauses[k]))
  }

  /** The clauses `split_into_clauses` finds in a section's text. */
  function SectionClauses(sec: Section, pageMap: map<int, string>, maxContentPage: int): seq<Clause>
    requires sec.text.Some? || sec.endPage.Some?
  {
    ClausesOf(SectionText(sec, pageMap, maxContentPage))
  }

  /** One list of clauses per section per chapter. */
  predicate Shaped(chapters: seq<Chapter>, lists: seq<seq<seq<Clause>>>) {
    |lists| == |chapters| && forall c :: 0 <= c < |chapters| ==> |lists[c]| == |chapters[c].sections|
  }

  /** The clauses of every section of a chapter. */
  function ChapterClauses(ch: Chapter, pageMap: map<int, string>, maxContentPage: int): (lists: seq<seq<Clause>>)
    requires SectionsEnded(ch)
    ensures |lists| == |ch.sections|
  {
    seq(|ch.sections|, s requires 0 <= s < |ch.sections| => SectionClauses(ch.sections[s], pageMap, maxContentPage))
  }

  /** The clauses of every section of every chapter. */
  function DocumentClauses(chapters: seq<Chapter>, pageMap: map<int, string>, maxContentPage: int): (lists: seq<seq<seq<Clause>>>)
    requires AllEnded(chapters)
    ensures Shaped(chapters, lists)
  {
    seq(|chapters|, c requires 0 <= c < |chapters| => ChapterClauses(chapters[c], pageMap, maxContentPage))
  }

  /** The chunks of each section of a chapter whose sections hold the clause
      lists `lists`, one list per section. */
  function SectionChunkLists(meta: DocMeta, ch: Chapter, chapterKey: string, lists: seq<seq<Clause>>): (xss: seq<seq<Chunk>>)
    requires |lists| == |ch.sections| && SectionsEnded(ch)
    ensures |xss| == |lists|
  {
    seq(|lists|, s requires 0 <= s < |lists| => ClauseChunks(meta, ch, chapterKey, ch.sections[s], lists[s]))
  }

  /** The chunks of a chapter, in section order. */
  function ChapterChunks(meta: DocMeta, ch: Chapter, chapterKey: string, lists: seq<seq<Clause>>): seq<Chunk>
    requires |lists| == |ch.sections| && SectionsEnded(ch)
  {
    Flatten(SectionChunkLists(meta, ch, chapterKey, lists), |lists|)
  }

  function ChapterChunkLists(meta: DocMeta, chapters: seq<Chapter>, lists: seq<seq<seq<Clause>>>): (xss: seq<seq<Chunk>>)
    requires AllEnded(chapters) && Shaped(chapters, lists)
    ensures |xss| == |chapters|
  {
    seq(|chapters|, c requires 0 <= c < |chapters| => ChapterChunks(meta, chapters[c], ChapterKey(chapters[c].chapterId), lists[c]))
  }

  /** The chunks of a document, in chapter order. */
  function AllChunks(meta: DocMeta, chapters: seq<Chapter>, lists: seq<seq<seq<Clause>>>): seq<Chunk>
    requires AllEnded(chapters) && Shaped(chapters, lists)
  {
    Flatten(ChapterChunkLists(meta, chapters, lists), |chapters|)
  }

  /** Every clause of a document, in chapter, section and clause order. */
  function AllClauses(lists: seq<seq<seq<Clause>>>): seq<Clause> {
    Flatten(seq(|lists|, c requires 0 <= c < |lists| => Flatten(lists[c], |lists[c]|)), |lists|)
  }

  /** The chapter key as `build_chunks` computes it, once per chapter. */
  method ComputeChapterKey(chapterId: string) returns (key: string)
    ensures key == ChapterKey(chapterId)
  {
    var chapterNum := RomanToInt(LastSegment(chapterId, '-'));
    key := if chapterNum > 0 then "ch" + NatToString(chapterNum) else Lower(chapterId);
  }

  /** The chunks of `clauses` appended to `chunks`: the clause loop of `build_chunks`. */
  method AppendClauseChunks(chunks: seq<Chunk>, meta: DocMeta, ch: Chapter, chapterKey: string, sec: Section,
                            sectionId: string, clauses: seq<Clause>)
    returns (out: seq<Chunk>)
    requires sec.endPage.Some? && sectionId == RemoveChar(sec.sectionId, '.')
    ensures out == chunks + ClauseChunks(meta, ch, chapterKey, sec, clauses)
  {
    ghost var all := ClauseChunks(meta, ch, chapterKey, sec, clauses);
    out := chunks;
    var k := 0;
    while k < |clauses|
      invariant k <= |clauses|
      invariant out == chunks + all[..k]
    {
      var chunk := MakeChunk(meta, ch, chapterKey, sec, sectionId, clauses[k]);
      assert chunk == all[k];
      TakeOneMore(chunks, all, k);
      out := out + [chunk];
      k := k + 1;
    }
    assert all[..k] == all;
  }

  /** Section `s`'s entry of a chapter's chunk lists is the chunk list of that section's clauses. */
  lemma SectionChunkListAt(meta: DocMeta, ch: Chapter, chapterKey: string, pageMap: map<int, string>, maxContentPage: int, s: nat)
    requires SectionsEnded(ch) && s < |ch.sections|
    ensures SectionChunkLists(meta, ch, chapterKey, ChapterClauses(ch, pageMap, maxContentPage))[s]
         == ClauseChunks(meta, ch, chapterKey, ch.sections[s], SectionClauses(ch.sections[s], pageMap, maxContentPage))
  {
  }

  /** The chunks of section `s` of a chapter appended to `chunks`, which hold
      the chunks of the sections before it: the section loop's body. */
  method AppendSectionChunks(chunks: seq<Chunk>, ghost front: seq<Chunk>, meta: DocMeta, ch: Chapter, chapterKey: string, s: nat,
                             pageMap: map<int, string>, maxContentPage: int)
    returns (out: seq<Chunk>)
    requires SectionsEnded(ch) && s < |ch.sections|
    requires chunks == front + Flatten(SectionChunkLists(meta, ch, chapterKey, ChapterClauses(ch, pageMap, maxContentPage)), s)
    ensures out == front + Flatten(SectionChunkLists(meta, ch, chapterKey, ChapterClauses(ch, pageMap, maxContentPage)), s + 1)
  {
    var sec := ch.sections[s];
    var sectionId := RemoveChar(sec.sectionId, '.');
    var sectionText := ExtractSectionText(sec, pageMap, maxContentPage);
    var clauses := SplitIntoClauses(sectionText);
    out := AppendClauseChunks(chunks, meta, ch, chapterKey, sec, sectionId, clauses);
    SectionChunkListAt(meta, ch, chapterKey, pageMap, maxContentPage, s);
    FlattenStep(front, SectionChunkLists(meta, ch, chapterKey, ChapterClauses(ch, pageMap, maxContentPage)), s, chunks, out);
  }

  /** The chunks of one chapter appended to `chunks`: the chapter loop's body. */
  method AppendChapterChunks(chunks: seq<Chunk>, meta: DocMeta, ch: Chapter, chapterKey: string,
                             pageMap: map<int, string>, maxContentPage: int)
    returns (out: seq<Chunk>)
    requires SectionsEnded(ch)
    ensures out == chunks + ChapterChunks(meta, ch, chapterKey, ChapterClauses(ch, pageMap, maxContentPage))
  {
    out := chunks;
    for s := 0 to |ch.sections|
      invariant out == chunks + Flatten(SectionChunkLists(meta, ch, chapterKey, ChapterClauses(ch, pageMap, maxContentPage)), s)
    {
      out := AppendSectionChunks(out, chunks, meta, ch, chapterKey, s, pageMap, maxContentPage);
    }
  }

  /** Chapter `c`'s entry of a document's chunk lists is the chunk list of that chapter. */
  lemma ChapterChunkListAt(meta: DocMeta, chapters: seq<Chapter>, pageMap: map<int, string>, maxContentPage: int, c: nat)
    requires AllEnded(chapters) && c < |chapters|
    ensures SectionsEnded(chapters[c])
    ensures ChapterChunkLists(meta, chapters, DocumentClauses(chapters, pageMap, maxContentPage))[c]
         == ChapterChunks(meta, chapters[c], ChapterKey(chapters[c].chapterId), ChapterClauses(chapters[c], pageMap, maxContentPage))
  {
  }

  method BuildChunks(chapters: seq<Chapter>, pageMap: map<int, string>, meta: DocMeta, maxContentPage: int)
    returns (chunks: seq<Chunk>)
    requires AllEnded(chapters)
    ensures chunks == AllChunks(meta, chapters, DocumentClauses(chapters, pageMap, maxContentPage))
  {
    ghost var xss := ChapterChunkLists(meta, chapters, DocumentClauses(chapters, pageMap, maxContentPage));
    chunks := [];
    var c := 0;
    while c < |chapters|
      invariant c <= |chapters|
      invariant chunks == [] + Flatten(xss, c)
    {
      ghost var before := chunks;
      ChapterChunkListAt(meta, chapters, pageMap, maxContentPage, c);
      var chapterKey := ComputeChapterKey(chapters[c].chapterId);
      chunks := AppendChapterChunks(chunks, meta, chapters[c], chapterKey, pageMap, maxContentPage);
      FlattenStep([], xss, c, before, chunks);
      c := c + 1;
    }
    assert chunks == Flatten(xss, c);
  }

  // ================================================================ properties

  /** What every chunk promises: its identifier is built from its own chapter
      id, section id and clause number; the section id has no "."; the clause
      number is 1 to 500; the sub-clause flag describes its text; its page range
      is its first and last page; its text has no surrounding whitespace. */
  predicate WellFormed(chunk: Chunk) {
    var m := chunk.metadata;
    && chunk.id == ChunkId(ChapterKey(m.chapterId), m.sectionId, m.clauseNumber)
    && '.' !in m.sectionId
    && 1 <= DigitsValue(m.clauseNumber) <= 500
    && m.hasSubclauses == HasSubclauses(chunk.text)
    && m.pageRange == [m.pageStart, m.pageEnd]
    && (chunk.text == [] || (!IsSpace(chunk.text[0]) && !IsSpace(chunk.text[|chunk.text| - 1])))
  }

  /** The chunk carries the document's metadata. */
  predicate Documented(chunk: Chunk, meta: DocMeta) {
    var m := chunk.metadata;
    m.docTitle == meta.title && m.regulator == meta.regulator &&
    m.jurisdiction == meta.jurisdiction && m.pdf == meta.pdfName
  }

  /** The chunk belongs to section `sec` of chapter `ch`. */
  predicate From(chunk: Chunk, ch: Chapter, sec: Section)
    requires sec.endPage.Some?
  {
    var m := chunk.metadata;
    && m.chapterId == ch.chapterId && m.chapterTitle == ch.chapterTitle
    && m.sectionId == RemoveChar(sec.sectionId, '.') && m.sectionTitle == sec.sectionTitle
    && m.pageStart == sec.startPage && m.pageEnd == sec.endPage.value
  }

  /** The chunk of an accepted clause is well formed, carries the document's
      metadata and names its section and chapter. */
  lemma ClauseChunkSound(meta: DocMeta, ch: Chapter, sec: Section, clause: Clause)
    requires sec.endPage.Some? && Accepted(clause)
    ensures WellFormed(ClauseChunk(meta, ch, ChapterKey(ch.chapterId), sec, clause))
    ensures Documented(ClauseChunk(meta, ch, ChapterKey(ch.chapterId), sec, clause), meta)
    ensures From(ClauseChunk(meta, ch, ChapterKey(ch.chapterId), sec, clause), ch, sec)
  {
  }

  /** Chunk `i` of a document is the chunk of clause `k` of section `s` of chapter `c`. */
  lemma AllChunksAt(meta: DocMeta, chapters: seq<Chapter>, lists: seq<seq<seq<Clause>>>, i: nat)
    returns (c: nat, s: nat, k: nat)
    requires AllEnded(chapters) && Shaped(chapters, lists)
    requires i < |AllChunks(meta, chapters, lists)|
    ensures c < |chapters| && s < |lists[c]| && k < |lists[c][s]|
    ensures AllChunks(meta, chapters, lists)[i] == ClauseChunk(meta, chapters[c], ChapterKey(chapters[c].chapterId), chapters[c].sections[s], lists[c][s][k])
  {
    var xss := ChapterChunkLists(meta, chapters, lists);
    var j;
    c, j := FlattenAt(xss, |chapters|, i);
    var ch := chapters[c];
    assert SectionsEnded(ch);
    var yss := SectionChunkLists(meta, ch, ChapterKey(ch.chapterId), lists[c]);
    assert xss[c] == Flatten(yss, |lists[c]|);
    s, k := FlattenAt(yss, |lists[c]|, j);
    assert yss[s] == ClauseChunks(meta, ch, ChapterKey(ch.chapterId), ch.sections[s], lists[c][s]);
  }

  /** Every chunk `build_chunks` returns is the chunk of an accepted clause of
      one of the document's sections: it is well formed, carries the document's
      metadata and names that section and its chapter. */
  lemma BuildChunksSound(meta: DocMeta, chapters: seq<Chapter>, pageMap: map<int, string>, maxContentPage: int, i: nat)
    requires AllEnded(chapters)
    requires i < |AllChunks(meta, chapters, DocumentClauses(chapters, pageMap, maxContentPage))|
    ensures WellFormed(AllChunks(meta, chapters, DocumentClauses(chapters, pageMap, maxContentPage))[i])
    ensures Documented(AllChunks(meta, chapters, DocumentClauses(chapters, pageMap, maxContentPage))[i], meta)
    ensures exists c, s :: (0 <= c < |chapters| && 0 <= s < |chapters[c].sections| &&
                            From(AllChunks(meta, chapters, DocumentClauses(chapters, pageMap, maxContentPage))[i], chapters[c], chapters[c].sections[s]))
  {
    var lists := DocumentClauses(chapters, pageMap, maxContentPage);
    var c, s, k := AllChunksAt(meta, chapters, lists, i);
    var sec := chapters[c].sections[s];
    assert SectionsEnded(chapters[c]);
    assert lists[c][s] == ClausesOf(SectionText(sec, pageMap, maxContentPage));
    ClausesAccepted(SectionText(sec, pageMap, maxContentPage));
    ClauseChunkSound(meta, chapters[c], sec, lists[c][s][k]);
  }

  /** Chunk and clause agree: text and number. */
  predicate Carries(chunk: Chunk, clause: Clause) {
    chunk.text == clause.text && chunk.metadata.clauseNumber == clause.number
  }

  /** Exactly one chunk per clause, in order: chunk `i` of a document carries
      the text and the number of clause `i` in chapter, section and clause order. */
  lemma ChunksMatchClauses(meta: DocMeta, chapters: seq<Chapter>, lists: seq<seq<seq<Clause>>>)
    requires AllEnded(chapters) && Shaped(chapters, lists)
    ensures |AllChunks(meta, chapters, lists)| == |AllClauses(lists)|
    ensures forall i :: 0 <= i < |AllChunks(meta, chapters, lists)| ==> Carries(AllChunks(meta, chapters, lists)[i], AllClauses(lists)[i])
  {
    var xss := ChapterChunkLists(meta, chapters, lists);
    var yss := seq(|lists|, c requires 0 <= c < |lists| => Flatten(lists[c], |lists[c]|));
    forall c | 0 <= c < |chapters|
      ensures |xss[c]| == |yss[c]|
      ensures forall k :: 0 <= k < |xss[c]| ==> Carries(xss[c][k], yss[c][k])
    {
      var ch := chapters[c];
      assert SectionsEnded(ch);
      var zss := SectionChunkLists(meta, ch, ChapterKey(ch.chapterId), lists[c]);
      forall s, k | 0 <= s < |lists[c]| && 0 <= k < |zss[s]| && k < |lists[c][s]|
        ensures Carries(zss[s][k], lists[c][s][k])
      {
        assert zss[s] == ClauseChunks(meta, ch, ChapterKey(ch.chapterId), ch.sections[s], lists[c][s]);
      }
      FlattenPointwise(zss, lists[c], |lists[c]|, Carries);
    }
    FlattenPointwise(xss, yss, |chapters|, Carries);
  }
}
