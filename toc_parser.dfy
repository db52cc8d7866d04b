/**
 * The two table-of-contents parsing functions, as the loops they are: each
 * is proved to return exactly the entries the scanners in `Toc` describe.
 */
module TocParser {
  import opened Text
  import opened Structure
  import opened Toc
  import opened Seqs

  /** `parse_chapters_from_toc`: one chapter record per match, in text order. */
  method ParseChaptersFromToc(toc: string) returns (chapters: seq<Chapter>)
    ensures chapters == TocChapters(toc)
  {
    var ms := ChapterMatches(toc, 0);
    chapters := [];
    for i := 0 to |ms|
      invariant chapters == ChapterEntries(ms[..i])
    {
      ChapterEntriesStep(ms, i);
      chapters := chapters + [ChapterEntry(ms[i])];
    }
    assert ms[..|ms|] == ms;
  }

  /** `parse_sections_from_toc`: filter the matches, then clean the kept titles. */
  method ParseSectionsFromToc(toc: string) returns (sections: seq<Section>)
    ensures sections == TocSections(toc)
  {
    var ms := SectionMatches(toc);
    sections := KeepValidSections(ms);
    sections := CleanSectionTitles(sections);
  }

  /** The first loop of `parse_sections_from_toc`: the record of every match
      whose stripped title passes `is_valid_section`, in order. */
  method KeepValidSections(ms: seq<SectionGroups>) returns (sections: seq<Section>)
    ensures sections == Pick(Candidates(ms), KeptBy(ms, Accepted, |ms|))
  {
    ghost var cands := Candidates(ms);
    sections := [];
    for i := 0 to |ms|
      invariant sections == Pick(cands, KeptBy(ms, Accepted, i))
    {
      var ok := IsValidSection(ms[i].tag, Strip(ms[i].title));
      PickStep(ms, cands, Accepted, i, sections, ok);
      if ok {
        sections := sections + [SectionEntry(ms[i])];
      }
    }
  }

  /** The second loop of `parse_sections_from_toc`, which rewrites each title
      in place. */
  method CleanSectionTitles(secs: seq<Section>) returns (cleaned: seq<Section>)
    ensures cleaned == CleanTitles(secs)
  {
    cleaned := secs;
    for k := 0 to |secs|
      invariant |cleaned| == |secs|
      invariant cleaned[..k] == CleanTitles(secs)[..k] && cleaned[k..] == secs[k..]
    {
      CleanStep(secs, cleaned, k);
      cleaned := cleaned[k := CleanTitle(cleaned[k])];
    }
    assert cleaned == cleaned[..|secs|];
  }
}
