/**
 * The page store: the page-number lookup table, the text of the first pages
 * (where the table of contents is read), and the text of a page range, which
 * the in-body splitter and the section-text fallback both assemble.
 */
module Pages {
  import opened Structure

  /** No later page carries the same number as page `i`. */
  predicate LastWithNumber(pages: seq<Page>, i: int)
    requires 0 <= i < |pages|
  {
    forall j :: i < j < |pages| ==> pages[j].pageNo != pages[i].pageNo
  }

  /** `{p["page_no"]: p["text"] for p in pages}`. */
  function BuildPageMap(pages: seq<Page>): map<int, string>
  {
    if pages == [] then map[]
    else
      var init, last := pages[..|pages| - 1], pages[|pages| - 1];
      BuildPageMap(init)[last.pageNo := last.text]
  }

  /** The keys of the page map are exactly the page numbers that occur. */
  lemma {:induction false} BuildPageMapKeys(pages: seq<Page>)
    ensures BuildPageMap(pages).Keys == set p | p in pages :: p.pageNo
  {
    if pages != [] {
      var init, last := pages[..|pages| - 1], pages[|pages| - 1];
      BuildPageMapKeys(init);
      assert pages == init + [last];
    }
  }

  /** A page number maps to the text of the last page carrying it. */
  lemma {:induction false} BuildPageMapValues(pages: seq<Page>, i: int)
    requires 0 <= i < |pages| && LastWithNumber(pages, i)
    ensures pages[i].pageNo in BuildPageMap(pages) && BuildPageMap(pages)[pages[i].pageNo] == pages[i].text
  {
    var init := pages[..|pages| - 1];
    if i < |pages| - 1 {
      assert LastWithNumber(init, i);
      BuildPageMapValues(init, i);
    }
  }

  /** `page_map.get(p, "")`. */
  function PageText(m: map<int, string>, p: int): string {
    if p in m then m[p] else ""
  }

  /** The text of pages `first..last`, each followed by a newline; a page missing
      from the map reads as empty, and the result is empty when `last < first`. */
  function PagesText(m: map<int, string>, first: int, last: int): string
    decreases last - first
  {
    if last < first then "" else PagesText(m, first, last - 1) + PageText(m, last) + "\n"
  }

  /** A page range's text is the text of its first part followed by that of the rest. */
  lemma {:induction false} PagesTextSplit(m: map<int, string>, first: int, mid: int, last: int)
    requires first - 1 <= mid <= last
    ensures PagesText(m, first, last) == PagesText(m, first, mid) + PagesText(m, mid + 1, last)
    decreases last - mid
  {
    if mid < last {
      PagesTextSplit(m, first, mid, last - 1);
      var a, b, c := PagesText(m, first, mid), PagesText(m, mid + 1, last - 1), PageText(m, last) + "\n";
      assert PagesText(m, first, last) == PagesText(m, first, last - 1) + c;
      assert PagesText(m, mid + 1, last) == b + c;
      assert (a + b) + c == a + (b + c);
    } else {
      assert PagesText(m, mid + 1, last) == "";
      assert PagesText(m, first, mid) + "" == PagesText(m, first, mid);
    }
  }

  /** The text of a range depends only on the pages inside it. */
  lemma {:induction false} PagesTextFrame(m: map<int, string>, m': map<int, string>, first: int, last: int)
    requires forall p :: first <= p <= last ==> PageText(m, p) == PageText(m', p)
    ensures PagesText(m, first, last) == PagesText(m', first, last)
    decreases last - first
  {
    if first <= last {
      PagesTextFrame(m, m', first, last - 1);
    }
  }

  /** The loop `for p in range(start, end + 1): text += page_map.get(p, "") + "\n"`. */
  method ConcatPages(m: map<int, string>, first: int, last: int) returns (text: string)
    ensures text == PagesText(m, first, last)
  {
    text := "";
    var p := first;
    while p <= last
      invariant last < first ==> p == first
      invariant first <= p <= last + 1 || last < first
      invariant text == PagesText(m, first, p - 1)
      decreases last - p
    {
      text := text + PageText(m, p) + "\n";
      p := p + 1;
    }
  }

  /** The number of pages `pages[:k]` keeps. */
  function SliceLength(n: nat, k: int): (r: nat)
    ensures r <= n
  {
    if k >= 0 then (if k < n then k else n)
    else if n + k > 0 then n + k else 0
  }

  /** Page texts, each followed by a newline. */
  function JoinPages(pages: seq<Page>): string {
    if pages == [] then "" else JoinPages(pages[..|pages| - 1]) + pages[|pages| - 1].text + "\n"
  }

  /** Pages numbered `1..n` in order are joined exactly as their range is. */
  lemma {:induction false} JoinPagesIsRange(pages: seq<Page>)
    requires forall i :: 0 <= i < |pages| ==> pages[i].pageNo == i + 1
    ensures JoinPages(pages) == PagesText(BuildPageMap(pages), 1, |pages|)
  {
    if pages != [] {
      var n := |pages|;
      JoinPagesIsRange(pages[..n - 1]);
      DropLastKeepsRange(pages);
      ConsecutiveText(pages, n - 1);
    }
  }

  /** Dropping the last of the pages numbered `1..n` leaves the text of pages
      `1..n-1` unchanged. */
  lemma DropLastKeepsRange(pages: seq<Page>)
    requires forall i :: 0 <= i < |pages| ==> pages[i].pageNo == i + 1
    requires pages != []
    ensures var n := |pages|;
      PagesText(BuildPageMap(pages), 1, n - 1) == PagesText(BuildPageMap(pages[..n - 1]), 1, n - 1)
  {
    var n := |pages|;
    var init := pages[..n - 1];
    var m, m0 := BuildPageMap(pages), BuildPageMap(init);
    forall p | 1 <= p <= n - 1 ensures PageText(m, p) == PageText(m0, p) {
      ConsecutiveText(pages, p - 1);
      ConsecutiveText(init, p - 1);
    }
    PagesTextFrame(m, m0, 1, n - 1);
  }

  lemma ConsecutiveText(pages: seq<Page>, i: int)
    requires forall j :: 0 <= j < |pages| ==> pages[j].pageNo == j + 1
    requires 0 <= i < |pages|
    ensures PageText(BuildPageMap(pages), i + 1) == pages[i].text
  {
    BuildPageMapValues(pages, i);
  }

  /** `get_toc_text`: the first `maxPages` pages (Python slice semantics), each
      followed by a newline. */
  method GetTocText(pages: seq<Page>, maxPages: int := 2) returns (toc: string)
    ensures toc == JoinPages(pages[..SliceLength(|pages|, maxPages)])
  {
    var n := SliceLength(|pages|, maxPages);
    toc := "";
    for i := 0 to n
      invariant toc == JoinPages(pages[..i])
    {
      assert pages[..i + 1][..i] == pages[..i];
      toc := toc + pages[i].text + "\n";
    }
  }
}
