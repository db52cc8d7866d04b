/**
 * The in-body splitter: a chapter's page text is cut at its section header
 * lines (a capital letter and "." at the start of a line, then a title), and
 * the blocks are matched to the table-of-contents sections by label. A chapter
 * without table-of-contents sections gets one pseudo-section for its whole text.
 *
 * `SECTION_HEADER_RE` (`^\s*([A-Z])\.\s+(.+)$`, multi-line) is modelled with
 * the way Python's matcher resolves it: `\s` also takes newlines, so a match
 * may begin at a blank line before the header and its title may sit on a later
 * line; `finditer` resumes the search where the previous match ended.
 */
module Reconcile {
  import opened Wrappers
  import opened Text
  import opened Structure
  import opened Pages
  import opened Scan

  // ================================================================ header lines

  /** A header match: where it starts and ends, the letter and the raw title group. */
  datatype Header = Header(start: nat, letter: char, title: string, end: nat)

  /** The largest position in `[lo, hi)` that does not hold a newline. */
  function LastOffNewline(s: string, lo: nat, hi: nat): (t: Option<nat>)
    requires hi <= |s|
    ensures t.Some? ==> lo <= t.value < hi && s[t.value] != '\n'
    ensures t.Some? ==> forall k :: t.value < k < hi ==> s[k] == '\n'
    ensures t.None? ==> forall k :: lo <= k < hi ==> s[k] == '\n'
    decreases hi
  {
    if hi <= lo then None
    else if s[hi - 1] != '\n' then Some(hi - 1)
    else LastOffNewline(s, lo, hi - 1)
  }

  /** Where the title group `(.+)` starts once `\s+` has begun at `q + 2`: the
      greedy `\s+` runs to `w` and gives back characters until `.` can take the
      next one, which must not be a newline. */
  function TitleStart(s: string, q: nat): (t: Option<nat>)
    requires q + 2 < |s| && IsSpace(s[q + 2])
    ensures t.Some? ==> q + 3 <= t.value < |s| && s[t.value] != '\n'
  {
    var w := Skip(s, q + 2, Space);
    if w < |s| then Some(w) else LastOffNewline(s, q + 3, |s|)
  }

  /** `SECTION_HEADER_RE` tried at position `p`, a line start: blanks (of any
      line), a capital letter, ".", at least one blank, then the title up to the
      end of its line. */
  function HeaderAt(s: string, p: nat): (h: Option<Header>)
    requires p <= |s|
    ensures h.Some? ==> h.value.start == p < h.value.end <= |s| && IsUpper(h.value.letter) && |h.value.title| >= 1
  {
    var q := Skip(s, p, Space);
    if q + 2 < |s| && IsUpper(s[q]) && s[q + 1] == '.' && IsSpace(s[q + 2]) then
      match TitleStart(s, q)
      case Some(t) =>
        var e := LineEnd(s, t);
        Some(Header(p, s[q], s[t..e], e))
      case None => None
    else
      None
  }

  /** The matcher `finditer` tries at each position: only a line start can
      begin a match. */
  function HeaderMatcher(s: string): nat -> Option<Header> {
    (q: nat) => if q <= |s| && LineStart(s, q) then HeaderAt(s, q) else None
  }

  const HeaderStart: Header -> nat := (h: Header) => h.start
  const HeaderEnd: Header -> nat := (h: Header) => h.end

  lemma HeaderMatcherAdvances(s: string)
    ensures Advances(|s|, HeaderMatcher(s), HeaderStart, HeaderEnd)
  {
    forall q: nat | q < |s| && HeaderMatcher(s)(q).Some?
      ensures HeaderStart(HeaderMatcher(s)(q).value) == q < HeaderEnd(HeaderMatcher(s)(q).value) <= |s|
    {
      assert HeaderMatcher(s)(q) == HeaderAt(s, q);
    }
  }

  /** `SECTION_HEADER_RE.finditer(s)`: all header matches of a chapter text, in
      text order, none overlapping the next. */
  function Headers(s: string): (hs: seq<Header>)
    ensures forall k :: 0 <= k < |hs| ==> hs[k].start < hs[k].end <= |s| && LineStart(s, hs[k].start)
    ensures forall k, l :: 0 <= k < l < |hs| ==> hs[k].end <= hs[l].start
  {
    HeaderMatcherAdvances(s);
    var hs := ScanFrom(|s|, HeaderMatcher(s), HeaderStart, HeaderEnd, 0);
    ScanPlaced(|s|, HeaderMatcher(s), HeaderStart, HeaderEnd, 0);
    forall k | 0 <= k < |hs| ensures hs[k].start < hs[k].end <= |s| && LineStart(s, hs[k].start) {
      assert hs[k] in hs;
      assert HeaderMatcher(s)(hs[k].start) == Some(hs[k]);
    }
    forall k, l | 0 <= k < l < |hs| ensures hs[k].end <= hs[l].start {
      ChainOrdered(hs, HeaderStart, HeaderEnd, k, l);
    }
    hs
  }

  // ================================================================ header blocks

  /** One entry of `header_blocks`. */
  datatype HeaderBlock = HeaderBlock(sectionId: string, sectionTitle: string, text: string)

  /** Header starts increase and lie inside the text. */
  predicate Placed(s: string, hs: seq<Header>) {
    && (forall k :: 0 <= k < |hs| ==> hs[k].start <= |s|)
    && (forall k, l :: 0 <= k < l < |hs| ==> hs[k].start < hs[l].start)
  }

  /** Where block `i` ends: at the next header's start, or at the end of the text. */
  function BlockEnd(s: string, hs: seq<Header>, i: nat): (e: nat)
    requires Placed(s, hs) && i < |hs|
    ensures hs[i].start <= e <= |s|
  {
    if i + 1 < |hs| then hs[i + 1].start else |s|
  }

  /** Block `i`: the header's letter with its dot, the stripped title, and the
      stripped text from the header's start to the block's end. */
  function Block(s: string, hs: seq<Header>, i: nat): HeaderBlock
    requires Placed(s, hs) && i < |hs|
  {
    HeaderBlock([hs[i].letter, '.'], Strip(hs[i].title), Strip(s[hs[i].start..BlockEnd(s, hs, i)]))
  }

  /** The loop that builds `header_blocks`. */
  method BuildHeaderBlocks(s: string, hs: seq<Header>) returns (blocks: seq<HeaderBlock>)
    requires Placed(s, hs)
    ensures |blocks| == |hs|
    ensures forall i :: 0 <= i < |hs| ==> blocks[i] == Block(s, hs, i)
  {
    blocks := [];
    for i := 0 to |hs|
      invariant |blocks| == i
      invariant forall k :: 0 <= k < i ==> blocks[k] == Block(s, hs, k)
    {
      var start := hs[i].start;
      var end := if i + 1 < |hs| then hs[i + 1].start else |s|;
      blocks := blocks + [HeaderBlock([hs[i].letter, '.'], Strip(hs[i].title), Strip(s[start..end]))];
    }
  }

  /** The raw text of the blocks from `i` on. */
  function RawBlocks(s: string, hs: seq<Header>, i: nat): string
    requires Placed(s, hs) && i <= |hs|
    decreases |hs| - i
  {
    if i == |hs| then "" else s[hs[i].start..BlockEnd(s, hs, i)] + RawBlocks(s, hs, i + 1)
  }

  /** The blocks tile the text: laid end to end, their raw slices are exactly
      the text from the first header on. */
  lemma {:induction false} BlocksTile(s: string, hs: seq<Header>, i: nat)
    requires Placed(s, hs) && i < |hs|
    ensures RawBlocks(s, hs, i) == s[hs[i].start..]
    decreases |hs| - i
  {
    var e := BlockEnd(s, hs, i);
    if i + 1 < |hs| {
      BlocksTile(s, hs, i + 1);
      assert s[hs[i].start..] == s[hs[i].start..e] + s[e..];
    } else {
      assert s[hs[i].start..e] + "" == s[hs[i].start..];
    }
  }

  // ================================================================ matching blocks to sections

  /** `{s["section_id"]: s for s in sections}`: a later section with the same
      label replaces an earlier one. */
  function ById(secs: seq<Section>): (m: map<string, Section>)
    ensures forall id :: id in m ==> m[id].sectionId == id
  {
    if secs == [] then map[]
    else ById(secs[..|secs| - 1])[secs[|secs| - 1].sectionId := secs[|secs| - 1]]
  }

  /** The labels `existing_by_id` holds are exactly those of the sections. */
  lemma {:induction false} ByIdKeys(secs: seq<Section>)
    ensures ById(secs).Keys == set s | s in secs :: s.sectionId
  {
    if secs != [] {
      var init, last := secs[..|secs| - 1], secs[|secs| - 1];
      ByIdKeys(init);
      assert secs == init + [last];
    }
  }

  /** A label maps to the last section that carries it. */
  lemma {:induction false} ByIdLast(secs: seq<Section>, i: nat)
    requires i < |secs|
    requires forall j :: i < j < |secs| ==> secs[j].sectionId != secs[i].sectionId
    ensures secs[i].sectionId in ById(secs) && ById(secs)[secs[i].sectionId] == secs[i]
  {
    if i < |secs| - 1 {
      ByIdLast(secs[..|secs| - 1], i);
    }
  }

  /** The text of the last of the first `n` blocks labelled `id`. */
  function LastText(blocks: seq<HeaderBlock>, id: string, n: nat): (t: Option<string>)
    requires n <= |blocks|
  {
    if n == 0 then None
    else if blocks[n - 1].sectionId == id then Some(blocks[n - 1].text)
    else LastText(blocks, id, n - 1)
  }

  /** `LastText` finds the last block with the label, and none when no block
      has it. */
  lemma {:induction false} LastTextIsLast(blocks: seq<HeaderBlock>, id: string, n: nat) returns (j: Option<nat>)
    requires n <= |blocks|
    ensures j.Some? ==> j.value < n && blocks[j.value].sectionId == id
    ensures j.Some? ==> LastText(blocks, id, n) == Some(blocks[j.value].text)
    ensures j.Some? ==> forall l :: j.value < l < n ==> blocks[l].sectionId != id
    ensures j.None? ==> LastText(blocks, id, n) == None
    ensures j.None? ==> forall l :: 0 <= l < n ==> blocks[l].sectionId != id
  {
    if n == 0 {
      j := None;
    } else if blocks[n - 1].sectionId == id {
      j := Some(n - 1);
    } else {
      j := LastTextIsLast(blocks, id, n - 1);
    }
  }

  /** The section dictionary `existing` after the loop has written into it the
      text of every one of the first `n` blocks that carries its label. */
  function StoredAfter(existing: Section, id: string, blocks: seq<HeaderBlock>, n: nat): Section
    requires n <= |blocks|
  {
    match LastText(blocks, id, n)
    case Some(t) => existing.(text := Some(t))
    case None => existing
  }

  /** The section built for a header no table-of-contents section matches: the
      chapter's unclipped range and the block's title and text. */
  function NewSection(chapter: Chapter, hb: HeaderBlock): Section {
    Section(hb.sectionId, hb.sectionTitle, chapter.startPage, chapter.endPage, Some(hb.text))
  }

  /** `rebuilt_sections` once the loop is over. An entry that comes from
      `existing_by_id` is the dictionary held there, so every entry with that
      label shows the text of the last block that carries it. */
  function Rebuilt(chapter: Chapter, existing: map<string, Section>, blocks: seq<HeaderBlock>): (r: seq<Section>)
    ensures |r| == |blocks|
  {
    seq(|blocks|, i requires 0 <= i < |blocks| =>
      var id := blocks[i].sectionId;
      if id in existing then StoredAfter(existing[id], id, blocks, |blocks|) else NewSection(chapter, blocks[i]))
  }

  /** What the loop appends: a reference to the dictionary held under a label,
      or a dictionary of its own. */
  datatype Entry = Stored(id: string) | Fresh(sec: Section)

  function EntryFor(chapter: Chapter, existing: map<string, Section>, hb: HeaderBlock): Entry {
    if hb.sectionId in existing then Stored(hb.sectionId) else Fresh(NewSection(chapter, hb))
  }

  /** The sections the entries denote, read from the dictionaries as they are now. */
  function Resolve(entries: seq<Entry>, store: map<string, Section>): (r: seq<Section>)
    requires forall k :: 0 <= k < |entries| && entries[k].Stored? ==> entries[k].id in store
    ensures |r| == |entries|
  {
    seq(|entries|, k requires 0 <= k < |entries| =>
      match entries[k]
      case Stored(id) => store[id]
      case Fresh(sec) => sec)
  }

  /** The loop over `header_blocks`: a matched section has the block's text
      written into it (into the one dictionary, however often it is appended),
      an unmatched header gets a new section. */
  method RebuildSections(chapter: Chapter, existing: map<string, Section>, blocks: seq<HeaderBlock>)
    returns (sections: seq<Section>)
    ensures sections == Rebuilt(chapter, existing, blocks)
  {
    var store := existing;
    var entries: seq<Entry> := [];
    for i := 0 to |blocks|
      invariant store.Keys == existing.Keys
      invariant forall id :: id in existing ==> store[id] == StoredAfter(existing[id], id, blocks, i)
      invariant |entries| == i
      invariant forall k :: 0 <= k < i ==> entries[k] == EntryFor(chapter, existing, blocks[k])
    {
      var hb := blocks[i];
      if hb.sectionId in store {
        store := store[hb.sectionId := store[hb.sectionId].(text := Some(hb.text))];
        entries := entries + [Stored(hb.sectionId)];
      } else {
        entries := entries + [Fresh(NewSection(chapter, hb))];
      }
    }
    sections := Resolve(entries, store);
  }

  // ================================================================ the splitter

  /** The last page a chapter's text is read from: `min(end_page, max_content_page)`. */
  function ClippedEnd(chapter: Chapter, maxContentPage: int): int
    requires chapter.endPage.Some?
  {
    if chapter.endPage.value <= maxContentPage then chapter.endPage.value else maxContentPage
  }

  /** The chapter's text: its pages up to the clipped end, each followed by a newline. */
  function ChapterText(chapter: Chapter, pageMap: map<int, string>, maxContentPage: int): string
    requires chapter.endPage.Some?
  {
    PagesText(pageMap, chapter.startPage, ClippedEnd(chapter, maxContentPage))
  }

  /** `header_blocks` for a text. */
  function Blocks(s: string): (bs: seq<HeaderBlock>)
    ensures |bs| == |Headers(s)|
  {
    var hs := Headers(s);
    seq(|hs|, i requires 0 <= i < |hs| => Block(s, hs, i))
  }

  /** `split_sections_within_chapter`. A chapter without table-of-contents
      sections gets one section, labelled "CHAPTER", for its whole clipped text;
      a chapter whose text has no header line is left as it is; otherwise the
      sections are rebuilt from the header blocks. */
  function Split(chapter: Chapter, pageMap: map<int, string>, maxContentPage: int): Chapter
    requires chapter.endPage.Some?
  {
    var text := ChapterText(chapter, pageMap, maxContentPage);
    if chapter.sections == [] then
      var whole := Section("CHAPTER", chapter.chapterTitle, chapter.startPage,
                           Some(ClippedEnd(chapter, maxContentPage)), Some(Strip(text)));
      chapter.(sections := [whole])
    else if Headers(text) == [] then
      chapter
    else
      chapter.(sections := Rebuilt(chapter, ById(chapter.sections), Blocks(text)))
  }

  method SplitSectionsWithinChapter(chapter: Chapter, pageMap: map<int, string>, maxContentPage: int)
    returns (r: Chapter)
    requires chapter.endPage.Some?
    ensures r == Split(chapter, pageMap, maxContentPage)
  {
    var sections := chapter.sections;
    var endPage := if chapter.endPage.value <= maxContentPage then chapter.endPage.value else maxContentPage;
    var text := ConcatPages(pageMap, chapter.startPage, endPage);
    if sections == [] {
      var whole := Section("CHAPTER", chapter.chapterTitle, chapter.startPage, Some(endPage), Some(Strip(text)));
      return chapter.(sections := [whole]);
    }
    var headers := Headers(text);
    if headers == [] {
      return chapter;
    }
    var blocks := BuildHeaderBlocks(text, headers);
    assert blocks == Blocks(text);
    var rebuilt := RebuildSections(chapter, ById(sections), blocks);
    r := chapter.(sections := rebuilt);
  }

  // ================================================================ properties

  /** No line of `s` matches the header pattern. */
  ghost predicate NoHeaderLine(s: string) {
    forall q :: 0 <= q < |s| && LineStart(s, q) ==> HeaderAt(s, q).None?
  }

  /** The scanner reports exactly the matches of the pattern: each is what the
      pattern gives where it starts, every line where the pattern matches lies
      within a reported match, and none is reported exactly when no line
      matches. */
  lemma HeadersExact(s: string)
    ensures forall h :: h in Headers(s) ==> h.start <= |s| && HeaderAt(s, h.start) == Some(h)
    ensures forall q :: 0 <= q < |s| && LineStart(s, q) && HeaderAt(s, q).Some? ==>
      exists k :: 0 <= k < |Headers(s)| && Headers(s)[k].start <= q < Headers(s)[k].end
    ensures Headers(s) == [] <==> NoHeaderLine(s)
  {
    var at := HeaderMatcher(s);
    HeaderMatcherAdvances(s);
    ScanPlaced(|s|, at, HeaderStart, HeaderEnd, 0);
    forall h | h in Headers(s) ensures h.start <= |s| && HeaderAt(s, h.start) == Some(h) {
      assert at(h.start) == Some(h);
    }
    forall q | 0 <= q < |s| && LineStart(s, q) && HeaderAt(s, q).Some?
      ensures exists k :: 0 <= k < |Headers(s)| && Headers(s)[k].start <= q < Headers(s)[k].end
    {
      assert at(q) == HeaderAt(s, q);
      var k := ScanCover(|s|, at, HeaderStart, HeaderEnd, 0, q);
      assert Headers(s)[k].start <= q < Headers(s)[k].end;
    }
    if NoHeaderLine(s) {
      forall q | 0 <= q < |s| ensures at(q).None? {
        assert LineStart(s, q) ==> at(q) == HeaderAt(s, q);
      }
      ScanNone(|s|, at, HeaderStart, HeaderEnd, 0);
    }
  }

  /** A chapter without table-of-contents sections ends up with exactly one
      section: labelled "CHAPTER", titled as the chapter, from the chapter's
      first page to its end clipped at the last content page, holding the
      stripped text of those pages; nothing else about the chapter changes. */
  lemma SplitWithoutSections(chapter: Chapter, pageMap: map<int, string>, maxContentPage: int)
    requires chapter.endPage.Some? && chapter.sections == []
    ensures |Split(chapter, pageMap, maxContentPage).sections| == 1
    ensures Split(chapter, pageMap, maxContentPage).(sections := []) == chapter
    ensures Split(chapter, pageMap, maxContentPage).sections[0]
      == Section("CHAPTER", chapter.chapterTitle, chapter.startPage, Some(ClippedEnd(chapter, maxContentPage)),
                 Some(Strip(PagesText(pageMap, chapter.startPage, ClippedEnd(chapter, maxContentPage)))))
    ensures ClippedEnd(chapter, maxContentPage) <= chapter.endPage.value && ClippedEnd(chapter, maxContentPage) <= maxContentPage
    ensures ClippedEnd(chapter, maxContentPage) in {chapter.endPage.value, maxContentPage}
  {
  }

  /** A chapter with sections but without any header line in its text is
      returned unchanged: its table-of-contents sections stay, without text. */
  lemma SplitWithoutHeaders(chapter: Chapter, pageMap: map<int, string>, maxContentPage: int)
    requires chapter.endPage.Some? && chapter.sections != []
    requires NoHeaderLine(ChapterText(chapter, pageMap, maxContentPage))
    ensures Split(chapter, pageMap, maxContentPage) == chapter
  {
    HeadersExact(ChapterText(chapter, pageMap, maxContentPage));
  }

  /** Once a chapter with sections has header lines, its sections are the
      header blocks in text order: one per header, labelled by the header's
      letter and a dot. A table-of-contents section whose label no header
      carries is therefore dropped; nothing else about the chapter changes. */
  lemma SplitLabels(chapter: Chapter, pageMap: map<int, string>, maxContentPage: int, text: string)
    requires chapter.endPage.Some? && chapter.sections != []
    requires text == ChapterText(chapter, pageMap, maxContentPage) && Headers(text) != []
    ensures |Split(chapter, pageMap, maxContentPage).sections| == |Headers(text)|
    ensures forall k :: 0 <= k < |Headers(text)| ==>
      Split(chapter, pageMap, maxContentPage).sections[k].sectionId == [Headers(text)[k].letter, '.']
    ensures Split(chapter, pageMap, maxContentPage).(sections := chapter.sections) == chapter
  {
    var hs, blocks := Headers(text), Blocks(text);
    var existing := ById(chapter.sections);
    var r := Rebuilt(chapter, existing, blocks);
    assert Split(chapter, pageMap, maxContentPage) == chapter.(sections := r);
    forall k | 0 <= k < |hs| ensures r[k].sectionId == [hs[k].letter, '.'] {
      assert blocks[k].sectionId == [hs[k].letter, '.'];
    }
  }

  /** A header whose label some table-of-contents section carries yields the
      last such section, pages and title unchanged, holding the text of the
      last block with that label (which may be a later one). */
  lemma SplitMatched(chapter: Chapter, pageMap: map<int, string>, maxContentPage: int, text: string, k: nat, i: nat)
    returns (j: nat)
    requires chapter.endPage.Some? && text == ChapterText(chapter, pageMap, maxContentPage)
    requires k < |Headers(text)| && i < |chapter.sections|
    requires chapter.sections[i].sectionId == Blocks(text)[k].sectionId
    requires forall i' :: i < i' < |chapter.sections| ==> chapter.sections[i'].sectionId != chapter.sections[i].sectionId
    ensures k <= j < |Headers(text)| && Blocks(text)[j].sectionId == Blocks(text)[k].sectionId
    ensures forall l :: j < l < |Headers(text)| ==> Blocks(text)[l].sectionId != Blocks(text)[k].sectionId
    ensures Split(chapter, pageMap, maxContentPage).sections[k] == chapter.sections[i].(text := Some(Blocks(text)[j].text))
  {
    var blocks := Blocks(text);
    var id := blocks[k].sectionId;
    ByIdLast(chapter.sections, i);
    var oj := LastTextIsLast(blocks, id, |blocks|);
    assert blocks[k].sectionId == id;
    j := oj.value;
  }

  /** A header whose label no table-of-contents section carries yields a new
      section: the block's label, title and text, and the chapter's own first
      and (unclipped) last page. */
  lemma SplitUnmatched(chapter: Chapter, pageMap: map<int, string>, maxContentPage: int, text: string, k: nat)
    requires chapter.endPage.Some? && chapter.sections != []
    requires text == ChapterText(chapter, pageMap, maxContentPage) && k < |Headers(text)|
    requires forall i :: 0 <= i < |chapter.sections| ==> chapter.sections[i].sectionId != Blocks(text)[k].sectionId
    ensures Split(chapter, pageMap, maxContentPage).sections[k]
      == Section(Blocks(text)[k].sectionId, Blocks(text)[k].sectionTitle, chapter.startPage, chapter.endPage,
                 Some(Blocks(text)[k].text))
  {
    ByIdKeys(chapter.sections);
  }

  /** Two headers with the same label that a table-of-contents section carries
      yield the very same section (the dictionary is shared), so the text of all
      but the last such block is lost. */
  lemma SplitSharedText(chapter: Chapter, pageMap: map<int, string>, maxContentPage: int, text: string,
                        k1: nat, k2: nat, i: nat)
    requires chapter.endPage.Some? && text == ChapterText(chapter, pageMap, maxContentPage)
    requires k1 < |Headers(text)| && k2 < |Headers(text)| && Blocks(text)[k1].sectionId == Blocks(text)[k2].sectionId
    requires i < |chapter.sections| && chapter.sections[i].sectionId == Blocks(text)[k1].sectionId
    ensures Split(chapter, pageMap, maxContentPage).sections[k1] == Split(chapter, pageMap, maxContentPage).sections[k2]
  {
    ByIdKeys(chapter.sections);
    assert chapter.sections[i] in chapter.sections;
  }
}
