# Structure inference and segmentation of a regulatory PDF

This project models the core of a pipeline that turns the page texts of a
regulatory document into chapters, sections, clauses and retrieval chunks,
and then audits the result. It proves properties of that model in Dafny.

The pipeline runs in five stages:

1. **Table-of-contents parsing.** Chapter entries ("Chapter-" + roman numeral,
   title, leader dots, page) and section entries ("A." + title + page) are
   read from the first two pages. Section entries are filtered and their
   titles cleaned of leader-dot runs.
2. **Range inference.** A chapter ends one page before the next one starts.
   Each section goes to the first chapter whose range holds its start page.
   Within a chapter, the sections are sorted by `(start_page, section_id)`. A
   section ends one page before the next section that starts on a later page.
3. **In-body reconciliation.** A chapter's text is cut at its header lines
   ("B. Title"). The blocks are matched to the table-of-contents sections by
   label. A chapter without sections gets a single `"CHAPTER"` pseudo-section.
4. **Clause segmentation and chunk assembly.**
   - Page-number lines are blanked.
   - The text is cut at every line that starts with a number and a dot.
   - Only clause numbers 1 to 500 are kept.
   - Each clause becomes a chunk whose identifier is
     `rbi_cb_gov_<chapter key>_sec<section>_clause<number>`.
5. **QA report.**
   - Duplicate identifiers are listed.
   - For every chapter, and for every (chapter, section) pair, the report
     gives the smallest and largest clause number, the number of distinct
     numbers, and the numbers missing in between.

Modules:

| module | models |
|---|---|
| `Wrappers`, `Structure`, `Text`, `Seqs`, `Scan`, `Assoc` | shared pieces:<br>• optional values<br>• page, chapter and section records<br>• Python's `str` operations on ASCII<br>• order-preserving filtering and flattening<br>• how `re.finditer` and `re.sub` walk a text<br>• insertion-ordered dictionaries |
| `Pages`, `Toc`, `TocParser`, `Ranges`, `Reconcile` | `src/ingest.py` |
| `Roman`, `Clauses`, `Chunks` | `src/chunk.py` |
| `Qa` | `src/qa.py` |

The model is imperative where the Python is:
- Every loop of the source is a Dafny `method` with a `while` or `for` loop.
- Each such method is proved equal to a specification function.
- The properties are proved as lemmas about those functions.

The Python functions update chapter and section dictionaries in place. Here
they return the updated records instead. One visible aliasing effect is
modelled explicitly: the same section dictionary appended twice by the in-body
splitter.

The regular expressions are modelled as scanners:
- The section header, clause and page-number patterns are resolved exactly as
  Python's matcher resolves them:
  - `\s` also takes newlines;
  - greedy runs give back only what the rest of the pattern needs;
  - `finditer` resumes where the previous match ended.
- The two table-of-contents patterns are confined to one line (see "Left out").

## Model

| member | source | states |
|---|---|---|
| Pages.GetTocText | src/ingest.py:21-25 | The result is the texts of the pages `pages[:max_pages]` (Python slice semantics, negative bounds included), each followed by a newline. |
| Pages.JoinPagesIsRange | src/ingest.py:21-25 | For pages numbered 1..n in order, joining their texts equals reading pages 1..n through the page map. |
| Pages.DropLastKeepsRange | src/ingest.py:81-82 | Dropping the last of the consecutively numbered pages leaves the text of pages 1..n-1 unchanged. |
| Pages.BuildPageMapKeys | src/ingest.py:81-82 | The page map's keys are exactly the page numbers that occur. |
| Pages.BuildPageMapValues | src/ingest.py:81-82 | A page number maps to the text of the last page carrying it, since later entries of the comprehension win. |
| Pages.ConsecutiveText | src/ingest.py:81-82 | With pages numbered 1..n, page i+1 maps to the i-th text. |
| Pages.ConcatPages | src/ingest.py:146-149 | The accumulation loop returns `PagesText`: every page from start to end, a missing page read as "", each followed by a newline, and nothing when end < start. |
| Pages.PagesTextSplit | src/chunk.py:61-64 | The text of a page range is the text of its first part followed by that of the rest. |
| Pages.PagesTextFrame | src/chunk.py:61-64 | The text of a range depends only on the pages inside it. |
| Toc.TailDigitsAt | src/ingest.py:4 | A match of the tail `\.+\s*(\d+)` puts the page digits after the leader dots, inside the text. |
| Toc.FirstTail | src/ingest.py:4 | The lazy title `(.+?)` ends at the first position where the tail matches; no earlier position matches. |
| Toc.TitleSpan | src/ingest.py:4 | The title group lies strictly between the numeral and the tail, within the line. |
| Toc.HeadingEnd | src/ingest.py:4 | A heading match starts with "Chapter-", has a numeral, and is followed by a blank. |
| Toc.ChapterMatchAt | src/ingest.py:4 | A chapter match ends after it starts, within the text. Its heading starts with "Chapter-" and its page group has at least one digit. |
| Toc.ChapterMatches | src/ingest.py:30 | Every match `finditer` reports has a non-empty page group. |
| Toc.ChapterEntriesAt | src/ingest.py:28-38 | Chapter record k is built from match k: stripped heading, stripped title, integer page. |
| TocParser.ParseChaptersFromToc | src/ingest.py:28-38 | The loop returns one chapter record per match, in text order. |
| Toc.ChapterLineMatch | src/ingest.py:4 | A chapter entry alone on its line matches at its start: the heading, the title up to the first run of dots, and the page digits are its groups, and the match ends at the end of the line. |
| Toc.TocChaptersExample | src/ingest.py:28-38 | "Chapter-I  Introduction.......... 1" and "Chapter-II  Definitions ...... 5" give ("Chapter-I", "Introduction", 1) and ("Chapter-II", "Definitions", 5), in that order. |
| Toc.TocSectionLine | src/ingest.py:5 | A section-entry match has a two-character tag (a capital letter and ".") and a non-empty page group. |
| Toc.LineMatches | src/ingest.py:59 | There is at most one section match per line, and every page group is non-empty. |
| Toc.ValidSectionIsLength | src/ingest.py:41-48 | `is_valid_section` holds exactly when the stripped title has at least five characters. The header-word test can never reject a title the length test passed. |
| Toc.AcceptedIsLength | src/ingest.py:64-65 | The filter keeps a match exactly when its stripped title has at least five characters. |
| Toc.RemoveDotRuns | src/ingest.py:52 | After removing every run of three or more dots, no such run remains. A first character that is not a dot is kept. |
| Toc.CleanSectionTitleShape | src/ingest.py:51-53 | A cleaned title has no run of three or more dots and no leading or trailing whitespace. |
| Toc.RemoveDotRunsNoRun | src/ingest.py:52 | On a text with no run of three dots, the substitution changes nothing. |
| Toc.CleanSectionTitleIdempotent | src/ingest.py:51-53 | Cleaning a cleaned title changes nothing. |
| Toc.CleanTitles | src/ingest.py:75-76 | The second loop's result has the same length, and entry i is entry i with its title cleaned. |
| Toc.TocSectionsOrigin | src/ingest.py:56-78 | Every returned section comes from a match whose stripped title has at least five characters. The sections keep text order and their titles are cleaned after the filter. No such match is missed. |
| TocParser.KeepValidSections | src/ingest.py:59-73 | The filter loop returns the record of every accepted match, in order. |
| TocParser.CleanSectionTitles | src/ingest.py:75-76 | The in-place cleaning loop yields `CleanTitles` of its input. |
| TocParser.ParseSectionsFromToc | src/ingest.py:56-78 | The function returns exactly the filtered, then cleaned, section entries. |
| Ranges.AddChapterRanges | src/ingest.py:85-92 | Length and order are kept. Chapter i gets end page `start(i+1) - 1`, and the last chapter gets `total_pages`. Nothing else changes. |
| Ranges.ChapterRangesContiguous | src/ingest.py:85-92 | With increasing start pages, every chapter range is non-empty. Each ends right before the next begins, and the last ends at `total_pages`. |
| Ranges.ChapterRangesPartition | src/ingest.py:85-92 | Every page from the first chapter's start to `total_pages` lies in exactly one chapter range. |
| Ranges.TocRangesExample | src/ingest.py:85-92 | For that table of contents, chapter I covers pages 1 to 4 and chapter II runs from page 5 to `total_pages`. |
| Ranges.Home | src/ingest.py:100-103 | The chapter found for a page holds that page. |
| Ranges.HomeIsFirst | src/ingest.py:100-103 | That chapter is the first in list order that holds the page. None is found exactly when no chapter holds it. |
| Ranges.ResetSections | src/ingest.py:96-97 | Every chapter's section list is reset to empty, and nothing else changes. |
| Ranges.AttachSectionsToChapters | src/ingest.py:95-104 | The nested loop with `break` returns the chapters after every section has been handed to its first holding chapter. |
| Ranges.AttachFirstFrame | src/ingest.py:95-104 | Attaching changes no chapter's identity, title or range. |
| Ranges.AttachFirstSections | src/ingest.py:95-104 | Chapter j's list holds exactly the sections whose first holding chapter is j, in input order. |
| Ranges.AttachedChapter | src/ingest.py:95-104 | Chapter j is returned with its sections replaced by those attached to it. |
| Ranges.AttachedExact | src/ingest.py:95-104 | The sections attached to j are a subsequence of the input, in input order. It holds every section whose home is j and no other. |
| Ranges.AttachedInRange | src/ingest.py:101 | Every attached section starts inside its chapter's range. No earlier chapter also holds it. |
| Ranges.AttachedOnce | src/ingest.py:99-103 | No section lands in two chapters. |
| Ranges.AttachedDropped | src/ingest.py:99-104 | A section no chapter holds is kept by no chapter, so it is dropped. A section some chapter holds is kept by its first holding chapter. |
| Ranges.KeyTrichotomy | src/ingest.py:108-110 | Two sort keys are equal or strictly ordered one way, never both. |
| Ranges.KeyLessTransitive | src/ingest.py:108-110 | The tuple order on `(start_page, section_id)` is transitive. |
| Ranges.InsertPermutes | src/ingest.py:108-110 | Inserting adds exactly the inserted section to the multiset. |
| Ranges.InsertSorted | src/ingest.py:108-110 | Inserting into a sorted list keeps it sorted. |
| Ranges.SortSectionsSorted | src/ingest.py:108-110 | `sorted` returns a list ordered by `(start_page, section_id)` that is a permutation of its input. |
| Ranges.WithKeyInsert | src/ingest.py:108-110 | Inserting places a section behind every section with the same key. |
| Ranges.SortSectionsStable | src/ingest.py:108-110 | The sort is stable: sections sharing a key keep their input order. |
| Ranges.AddSectionRanges | src/ingest.py:107-125 | The loop with inner `break` returns the chapter with its sections sorted, each given its end page. |
| Ranges.SectionEndScan | src/ingest.py:116-120 | The inner scan from position `from` stops at the first later section with a greater start page and ends one page before it. Without one, it ends at the chapter's end. |
| Ranges.SectionEndIsNextGreater | src/ingest.py:112-122 | Section i ends one page before the first later section that starts on a greater page. Without one, it ends with the chapter (`total_pages` when the chapter has no end page). |
| Ranges.SortedStarts | src/ingest.py:108-110 | In the sorted list, start pages never decrease. |
| Ranges.SameStartSameEnd | src/ingest.py:112-122 | Sections sharing a start page get the same end page. |
| Ranges.SectionRangesSorted | src/ingest.py:107-125 | After `add_section_ranges` the sections are sorted by key and as many as before. |
| Ranges.SectionRangesNest | src/ingest.py:112-122 | When every section starts inside its chapter, each gets `ch.start <= sec.start <= sec.end <= ch.end`. |
| Ranges.AttachedRangesNest | src/ingest.py:101 | After attaching, then computing section ranges, every section's range nests inside its chapter's. |
| Reconcile.LastOffNewline | src/ingest.py:6 | This finds the last position before `hi` that is not a newline, where `.+$` can end. |
| Reconcile.TitleStart | src/ingest.py:6 | The title group starts after the blank run that follows "X.", at a character that is not a newline. |
| Reconcile.HeaderAt | src/ingest.py:6 | A header match starts where it is tried and ends after it. Its letter is a capital and its title is non-empty. |
| Reconcile.HeaderMatcherAdvances | src/ingest.py:151 | Every header match moves the `finditer` search forward. |
| Reconcile.Headers | src/ingest.py:151 | The header matches lie inside the text, start at line starts, and come in text order without overlap. |
| Reconcile.HeadersExact | src/ingest.py:151-153 | Every reported header is what the pattern gives at its start. Every line start where the pattern matches lies inside a reported match. No header is reported exactly when no line matches. |
| Reconcile.BlockEnd | src/ingest.py:158 | A block ends at the next header's start, or at the end of the text. |
| Reconcile.BuildHeaderBlocks | src/ingest.py:155-166 | The loop returns one block per header: label "X.", stripped title, and stripped text from the header up to the block's end. |
| Reconcile.BlocksTile | src/ingest.py:155-166 | Laid end to end, the blocks' raw slices are exactly the text from the first header on. |
| Reconcile.ById | src/ingest.py:168 | Every label in `existing_by_id` maps to a section with that label. |
| Reconcile.ByIdKeys | src/ingest.py:168 | The labels held are exactly those of the sections. |
| Reconcile.ByIdLast | src/ingest.py:168 | A label maps to the last section that carries it. |
| Reconcile.LastTextIsLast | src/ingest.py:170-181 | `LastText` is the text of the last block with the label, and None when no block has it. |
| Reconcile.Rebuilt | src/ingest.py:170-182 | The rebuilt list has one entry per header block. |
| Reconcile.Resolve | src/ingest.py:170-182 | The sections the appended entries denote, read after the loop, are one per entry. |
| Reconcile.RebuildSections | src/ingest.py:168-182 | The loop returns `Rebuilt`. Appending the same dictionary twice is modelled, so a repeated label shows the last block's text in every entry. |
| Reconcile.Blocks | src/ingest.py:155-166 | There is one header block per header. |
| Reconcile.SplitSectionsWithinChapter | src/ingest.py:128-183 | The method returns `Split`: the pseudo-section path, the no-header path, or the rebuilt sections. |
| Reconcile.SplitWithoutSections | src/ingest.py:129-144 | A chapter without sections gets exactly one `"CHAPTER"` section: the chapter title, its start page, end `min(end_page, max_content_page)`, and the stripped text of those pages. Nothing else changes. |
| Reconcile.SplitWithoutHeaders | src/ingest.py:146-153 | A chapter with sections but no header line in its text is returned unchanged. |
| Reconcile.SplitLabels | src/ingest.py:155-182 | There is one new section per header, in body order, labelled with the header letter and ".". Table-of-contents sections whose label never appears are dropped. Nothing else about the chapter changes. |
| Reconcile.SplitMatched | src/ingest.py:168-181 | A header matching a table-of-contents section yields that section (the last one with the label) with its pages kept. Its text is that of the last block with the same label. |
| Reconcile.SplitUnmatched | src/ingest.py:172-178 | An unmatched header yields a new section with its label and title and the chapter's unclipped start and end pages. |
| Reconcile.SplitSharedText | src/ingest.py:170-181 | Two blocks with the same label matching a table-of-contents section produce identical entries, so the earlier block's text is lost. |
| Roman.RomanToInt | src/chunk.py:6-18 | The loop over the reversed upper-cased string returns `RomanNumber`. |
| Roman.RomanScanAppend | src/chunk.py:11-17 | Reading `a + b` backwards is reading `b`, then `a` from the state `b` left. |
| Roman.RomanRoundTrip | src/chunk.py:6-18 | `roman_to_int` inverts the standard notation: the standard numeral of any n reads as n. |
| Roman.RomanCaseInsensitive | src/chunk.py:7 | Lower-case and upper-case numerals read the same. |
| Roman.RomanIgnoresOthers | src/chunk.py:12 | Characters outside IVXLCDM contribute nothing. |
| Roman.RomanExamples | src/chunk.py:6-18 | "I" is 1, "IV" is 4, "IX" is 9 and "XL" is 40. |
| Roman.RomanExample1994 | src/chunk.py:6-18 | "MCMXCIV" is 1994. |
| Roman.RomanEdgeExamples | src/chunk.py:6-18 | "" is 0, and "iii" and "III" are 3. |
| Clauses.DigitLineAt | src/chunk.py:22 | A digit-only-line match consists of blanks and digits and ends at a newline or at the end of the text. |
| Clauses.DigitLineMatcherAdvances | src/chunk.py:22 | Every digit-line match moves the `re.sub` search forward. |
| Clauses.DigitLines | src/chunk.py:22 | The replaced lines are ordered, do not overlap, and hold only blanks and digits. |
| Clauses.DigitLinesExact | src/chunk.py:22 | The reported lines are exactly what the pattern gives. Every matching line start is covered, and none is reported exactly when no line matches. |
| Clauses.CleanTextUnchanged | src/chunk.py:21-23 | A text without digit-only lines is unchanged. |
| Clauses.CleanTextKeepsWords | src/chunk.py:21-23 | `clean_text` deletes only whitespace and digits: every other character survives, in order. |
| Clauses.ValidClauseNumberIff | src/chunk.py:26-32 | A clause number is valid exactly when its value is 1 to 500. The year rule rejects nothing the range rule would accept. |
| Clauses.ValidClauseNumberExamples | src/chunk.py:26-32 | "1", "150" and "500" are accepted; "0", "501", "1999" and "2024" are rejected. |
| Clauses.ClauseAt | src/chunk.py:3 | A clause match starts where it is tried, ends after it, and has a non-empty number. |
| Clauses.ClauseAtIff | src/chunk.py:3 | The pattern matches exactly where the text has blanks, digits, "." and a blank. The number group is that digit run. |
| Clauses.ClauseMatcherAdvances | src/chunk.py:37 | Every clause match moves the `finditer` search forward. |
| Clauses.ClauseMatches | src/chunk.py:37 | The matches are inside the text and in order without overlap, each with a number. |
| Clauses.ClauseMatchesExact | src/chunk.py:37-39 | Every reported match is what the pattern gives at a line start. Every matching line start is covered, and none is reported exactly when no line matches. |
| Clauses.SplitIntoClauses | src/chunk.py:35-50 | The loop returns `ClausesOf`: the candidates of the matches in the cleaned text whose number is valid. |
| Clauses.SplitClauses | src/chunk.py:35-50 | Clauses come in text order, at most one per match, each with a valid number (1 to 500). A clause's text is the stripped slice from its match to the next match of any validity, or to the end. No valid match is left out. |
| Clauses.ClausesAccepted | src/chunk.py:42-49 | Every returned clause has a number from 1 to 500 and a text without surrounding whitespace. |
| Clauses.NoClauses | src/chunk.py:36-39 | Without a clause line in the cleaned text, the result is empty. |
| Clauses.MarkerFound | src/chunk.py:54 | Where the sub-clause test passes, a marker piece starts. |
| Clauses.FoundAt | src/chunk.py:54 | Located runs form a marker. |
| Clauses.HasSubclausesIff | src/chunk.py:53-54 | `has_subclauses` holds exactly when some piece of the text is "(" + optional blanks + an i/v/x run or one letter + optional blanks + ")", case-insensitive. |
| Clauses.NoParenNoSubclauses | src/chunk.py:53-54 | A text without "(" has no sub-clauses. |
| Clauses.SubclauseExamples | src/chunk.py:53-54 | "(i) item (ii) item" has sub-clauses and "First rule text" has none. |
| Clauses.SegmentationExample | src/chunk.py:35-54 | "1. First rule text\n2. Second rule (i) item (ii) item\n" splits into clause "1" with text "1. First rule text" and clause "2" with text "2. Second rule (i) item (ii) item". Only the second clause has sub-clauses. |
| Chunks.ExtractSectionText | src/chunk.py:57-65 | The loop returns `SectionText`: the stripped stored text when present, otherwise the stripped text of pages start..min(end, max_content_page), with missing pages read as "". |
| Chunks.SectionTextFrame | src/chunk.py:57-65 | The extracted text depends only on the stored text, or on the pages in the clipped range. |
| Chunks.ChapterKeyOfNumeral | src/chunk.py:80-82 | A chapter id ending in "-" followed by the standard numeral of n >= 1 gets the key "ch" + n. |
| Chunks.LastSegmentAfter | src/chunk.py:80 | `split("-")[-1]` is the part after the last "-". |
| Chunks.ChunkIdInjective | src/chunk.py:94 | Within one chapter key and section, different clause numbers give different identifiers. |
| Chunks.ChapterKeyExample | src/chunk.py:80-82 | "Chapter-III" gets the key "ch3". |
| Chunks.ChunkIdExample | src/chunk.py:94 | "ch3", "B" and "7" give "rbi_cb_gov_ch3_secB_clause7". |
| Chunks.SectionIdExample | src/chunk.py:85 | "B." becomes "B". |
| Chunks.ComputeChapterKey | src/chunk.py:80-82 | The method computes `ChapterKey`: "ch" + the numeral's value when positive, else the lower-cased chapter id. |
| Chunks.AppendClauseChunks | src/chunk.py:91-118 | The clause loop appends one chunk per clause, in clause order. |
| Chunks.AppendSectionChunks | src/chunk.py:84-118 | One pass of the section loop appends the chunks of that section's clauses. |
| Chunks.AppendChapterChunks | src/chunk.py:76-118 | The section loop appends the chunks of every section of the chapter, in section order. |
| Chunks.BuildChunks | src/chunk.py:68-120 | The method returns `AllChunks`: the chunks of every clause of every section of every chapter, in chapter, section and clause order. |
| Chunks.ClauseChunkSound | src/chunk.py:94-117 | The chunk of an accepted clause has the documented identifier, a dot-free section id and a number from 1 to 500. Its `has_subclauses` matches its text, `page_range` equals `[page_start, page_end]`, and its text is stripped. It carries the document metadata and names its chapter and section. |
| Chunks.AllChunksAt | src/chunk.py:76-118 | Chunk i is the chunk of some clause k of section s of chapter c. |
| Chunks.BuildChunksSound | src/chunk.py:68-120 | Every chunk of a document is well formed and documented, and comes from one of its chapters' sections. |
| Chunks.ChunksMatchClauses | src/chunk.py:76-118 | There is exactly one chunk per clause, in order: chunk i carries the text and number of clause i. |
| Assoc.Get | src/qa.py:35-36 | A lookup succeeds exactly when the key is present. |
| Assoc.GetUnique | src/qa.py:38-42 | With distinct keys, the lookup of entry i's key gives entry i's value. |
| Assoc.PutSpec | src/qa.py:22-27 | Assignment adds the key at the end when it is new. It changes only that key's value. |
| Assoc.PutNew | src/qa.py:22-27 | Assigning a new key appends the pair. |
| Assoc.PutDistinct | src/qa.py:22-27 | Assignment keeps keys distinct. |
| Assoc.AppendSpec | src/qa.py:35-36 | `setdefault(k, []).append(v)` extends only k's list, and adds k at the end when it is new. |
| Qa.FindDuplicates | src/qa.py:9-15 | The `seen` loop returns `Duplicates`: every identifier that repeats an earlier one, once per repetition, in order. |
| Qa.DuplicatesCount | src/qa.py:9-15 | An identifier occurring m > 0 times is listed m - 1 times, and one that does not occur is not listed. |
| Qa.NoDuplicatesIffDistinct | src/qa.py:9-15 | Nothing is listed exactly when all identifiers are distinct. |
| Qa.ValuesForPresent | src/qa.py:29-36 | A key has values exactly when it occurs. |
| Qa.ValuesForHas | src/qa.py:29-36 | Every value is among the values of its key. |
| Qa.GroupedGet | src/qa.py:29-36 | The grouped entry of a key holds that key's values, in chunk order, and is absent when the key never occurs. |
| Qa.GroupedKeys | src/qa.py:29-36 | The grouped table has one entry per distinct key, in order of first appearance. |
| Qa.GroupedEntry | src/qa.py:29-36 | Grouped keys are distinct, and every entry holds its key's values, at least one. |
| Qa.GroupNumbers | src/qa.py:29-36 | The grouping loop returns the chapter table and the section table. |
| Qa.SeqMin | src/qa.py:20-23 | `nums[0]` of the sorted distinct numbers is a number of the group, no larger than any. |
| Qa.SeqMax | src/qa.py:20-23 | `nums[-1]` of the sorted distinct numbers is a number of the group, no smaller than any. |
| Qa.Range | src/qa.py:21 | `range(lo, hi + 1)` holds exactly the integers lo..hi. |
| Qa.Present | src/qa.py:20 | `set(nums)` holds exactly the numbers of the group. |
| Qa.MissingMembers | src/qa.py:21 | The missing numbers are exactly those between the bounds that are absent. |
| Qa.MissingAscending | src/qa.py:21 | The missing numbers are strictly ascending. |
| Qa.MissingCount | src/qa.py:21 | The missing numbers and the present ones in range together fill the range. |
| Qa.RangeStats | src/qa.py:17-27 | There are no statistics exactly when the group is empty. |
| Qa.RangeStatsSpec | src/qa.py:17-27 | min and max occur and enclose every number, and count is the number of distinct values. `missing` is the ascending list of absent values in [min, max], and `count + len(missing) == max - min + 1`. |
| Qa.RangeStatsExample | src/qa.py:17-27 | Clause numbers 4, 1, 2, 5, 4 give min 1, max 5, count 4, missing [3]. |
| Qa.AddRangeStats | src/qa.py:17-27 | An empty group leaves the container unchanged. Otherwise the container stores the group's statistics under the key. |
| Qa.TabulateSpec | src/qa.py:38-42 | With distinct names and non-empty groups, the report map holds one entry per group, in group order, with that group's statistics. |
| Qa.TabulateDistinct | src/qa.py:38-42 | The report maps have distinct keys. |
| Qa.AddAllRangeStats | src/qa.py:38-42 | The loop over the groups returns `Tabulate`. |
| Qa.BuildQaReport | src/qa.py:1-44 | The method returns `Report`. |
| Qa.ReportDuplicates | src/qa.py:2-15 | `total_chunks` is the number of chunks, and an identifier occurring m times is listed m - 1 times. Nothing is listed exactly when identifiers are distinct. Every identifier is unique or listed. |
| Qa.ColonAfter | src/qa.py:42 | In a colon-free chapter id's section key, the first colon is the one after the chapter id. |
| Qa.SectionNameInjective | src/qa.py:42 | For colon-free chapter ids, the key `f"{ch}:{sec}"` determines the pair. |
| Qa.GroupedTabulable | src/qa.py:29-42 | Grouped tables satisfy the tabulation conditions when the names tell keys apart. |
| Qa.TabulateGroupedKeys | src/qa.py:29-42 | Grouping then tabulating gives one entry per distinct key, in order of first appearance. |
| Qa.TabulateGrouped | src/qa.py:29-42 | The entry named after a key holds the statistics of that key's values. |
| Qa.ReportChapterKeys | src/qa.py:38-39 | There is one `chapters` entry per distinct chapter id, in order of first appearance. |
| Qa.ReportChapters | src/qa.py:38-39 | A chunk's chapter entry holds the statistics of that chapter's clause numbers. |
| Qa.ReportSections | src/qa.py:41-42 | For colon-free chapter ids, there is one `sections` entry per distinct (chapter, section) pair. A chunk's entry, keyed `"ch:sec"`, holds the statistics of its pair's clause numbers. |
| Qa.ChunkCovered | src/qa.py:17-39 | Every chunk's clause number lies within its chapter's [min, max] and is not reported missing. |
| Text.Strip | src/ingest.py:42 | `str.strip()` returns a result with no edge whitespace, empty exactly when the input is all whitespace. |
| Text.StripIdempotent | src/ingest.py:53 | Stripping twice is stripping once. |
| Text.NatToString | src/chunk.py:82 | `f"{n}"` is a digit string whose value is n, without a leading zero unless n is 0. |
| Text.DigitsValueAppend | src/qa.py:34 | `int` of a concatenation of digit strings is read positionally. |
| Scan.ScanPlaced | src/chunk.py:37 | Every match `finditer` reports is what the pattern gives where it starts, and matches do not overlap. |
| Scan.ScanCover | src/chunk.py:37 | Every position where the pattern matches lies inside some reported match. |
| Scan.ScanNone | src/chunk.py:37-39 | With no match, nothing is reported. |
| Scan.ScanSkip | src/chunk.py:37-39 | Positions where the pattern does not match change nothing in what the search reports. |
| Scan.FoundIff | src/chunk.py:54 | `re.search` succeeds exactly when the pattern matches at some position. |
| Seqs.KeptByExact | src/ingest.py:64-65 | The kept positions are exactly those passing the test, in order. |
| Seqs.FlattenAt | src/chunk.py:76-118 | Element i of the concatenation of lists comes from some list, at some position. |
| Seqs.FlattenPointwise | src/chunk.py:76-118 | If two lists of lists correspond position by position, their concatenations have equal length and correspond position by position. |

## Left out

- `extract_pdf_pages` and the PDF library it wraps are not part of this model. Pages are given as a list of `(page_no, text)` records.
- `app.py` is not part of this model: the configuration, file checks, JSON writing and printing. The values it passes in (`total_pages`, `max_content_page`) are parameters.
- Characters are ASCII. `str.strip`, `lower`, `upper` and `\s` are modelled on ASCII only. `\d` and `int()` accept only the ASCII digits 0-9.
- The two table-of-contents patterns (`CHAPTER_TOC_REGEX`, `SECTION_TOC_REGEX`) are modelled as scanners confined to one line. Python's `\s` would let a chapter entry or a section entry span a line break.
- Toc.ChapterMatches: its lazy `(.+?)` title and the backtracking of `\s+` are resolved within one line only, as above.
- The JSON shape of chunks and reports is not modelled. They are Dafny datatypes. Dictionaries in the report are insertion-ordered tables (`Assoc`).
- Qa.BuildQaReport: requires every clause number to be a non-empty digit string (`Numbered`). `int()` raises on an empty string and also accepts surrounding whitespace and signs. The chunks `build_chunks` makes always satisfy the requirement, because their numbers come from a `(\d+)` group.
- Qa.ReportSections: the one-entry-per-pair statement is proved only for chapter ids without ":". With a colon, two pairs can share a key `"ch:sec"`, and the model keeps Python's behaviour: the later group overwrites the earlier one. Only the lemma carries that hypothesis.
- Qa.RangeStats: `sorted(set(nums))` is not modelled as a sort. min and max are computed directly, and `count` is the size of the set. The reported values are the same.
- Chunks.BuildChunks: the three nested loops are split into one method per loop level (`AppendClauseChunks`, `AppendSectionChunks`, `AppendChapterChunks`). The specification is stated over the clause lists of each section (`DocumentClauses`).
- Chunks.ClauseChunkSound: the sub-clause flag is tied to the `has_subclauses` model, not to Python's `re.IGNORECASE` beyond ASCII letters.
- Python's `sorted` is modelled as a stable insertion of each section in turn. The result is the same list, because the sort is stable and the key is total.
