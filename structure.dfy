/**
 * The records the ingest stages pass along. A Python dict that only gains a
 * key at a later stage carries that key here as an `Option`: a table-of-
 * contents chapter has no `end_page` until its range is inferred, and a
 * section has no `text` until the in-body splitter stores one.
 */
module Structure {
  import opened Wrappers

  /** One page of extracted text; page numbers are 1-based. */
  datatype Page = Page(pageNo: int, text: string)

  datatype Section = Section(
    sectionId: string,
    sectionTitle: string,
    startPage: int,
    endPage: Option<int>,
    text: Option<string>)

  datatype Chapter = Chapter(
    chapterId: string,
    chapterTitle: string,
    startPage: int,
    endPage: Option<int>,
    sections: seq<Section>)
}
