/** The page scan of `highlightText`: clear every highlight, then search the
    pages in order and place one highlight on the first page that matches. */
module Highlighter {
  import opened Wrappers
  import opened Normalize
  import opened FragmentIndex
  import opened MatchLocator
  import opened Region

  /** A loaded page: its 1-based number, its text items (already carrying their
      viewport-transformed baselines) and the width of its canvas, if any. */
  datatype Page = Page(pageNum: nat, items: seq<Item>, canvasWidth: Option<nat>)

  /** A highlight element appended to the container of page `pageNum`. */
  datatype Highlight = Highlight(pageNum: nat, rect: Rect)

  /** `startIndex` for this page: where the normalised query first occurs in
      the normalised page text, or -1. */
  function Search(page: Page, text: string): int {
    IndexOf(FullText(page.items), Strip(text))
  }

  predicate Matches(page: Page, text: string) {
    Search(page, text) != -1
  }

  /** The rectangle the source builds for this page, or `None` when the page
      does not match and the scan moves on. */
  function PageRect(page: Page, text: string): (r: Option<Rect>)
    ensures r.Some? <==> Matches(page, text)
  {
    var searchText := Strip(text);
    var startIndex := Search(page, text);
    if startIndex == -1 then None
    else Some(MatchRect(page.items, startIndex, startIndex + |searchText|, page.canvasWidth))
  }

  /** The rectangle composed from the entries whose range meets
      `[startIndex, endIndex]`. */
  function MatchRect(items: seq<Item>, startIndex: int, endIndex: int, canvasWidth: Option<nat>): Rect {
    MakeRect(BandOf(Overlapping(Entries(items), startIndex, endIndex)), canvasWidth)
  }

  /** The first page from `from` on whose text contains the query. */
  function FirstMatchFrom(pages: seq<Page>, text: string, from: nat): (r: Option<nat>)
    requires from <= |pages|
    decreases |pages| - from
    ensures r.Some? ==> from <= r.value < |pages| && Matches(pages[r.value], text)
    ensures r.Some? ==> forall j :: from <= j < r.value ==> !Matches(pages[j], text)
    ensures r.None? ==> forall j :: from <= j < |pages| ==> !Matches(pages[j], text)
  {
    if from == |pages| then None
    else if Matches(pages[from], text) then Some(from)
    else FirstMatchFrom(pages, text, from + 1)
  }

  /** The page that receives the highlight: the lowest-numbered matching one. */
  function FirstMatch(pages: seq<Page>, text: string): (r: Option<nat>)
    ensures r.Some? ==> (r.value < |pages| && Matches(pages[r.value], text)
      && forall j :: 0 <= j < r.value ==> !Matches(pages[j], text))
    ensures r.None? <==> forall j :: 0 <= j < |pages| ==> !Matches(pages[j], text)
  {
    FirstMatchFrom(pages, text, 0)
  }

  /** With an empty or whitespace-only reference the very first page matches. */
  lemma WhitespaceQueryHighlightsFirstPage(pages: seq<Page>, text: string)
    requires forall i :: 0 <= i < |text| ==> IsWs(text[i])
    requires |pages| > 0
    ensures FirstMatch(pages, text) == Some(0)
  {
    WhitespaceQueryMatchesAtZero(FullText(pages[0].items), text);
  }

  /** A page without text items matches only a query that normalises to the
      empty string, and then its rectangle keeps `top = Infinity` and
      `height = -Infinity` because the selection is empty. */
  lemma {:induction false} ImageOnlyPage(page: Page, text: string)
    requires |page.items| == 0
    ensures Matches(page, text) <==> |Strip(text)| == 0
    ensures Matches(page, text) ==> PageRect(page, text) == Some(Rect(0, PlusInfinity, PageWidth(page.canvasWidth), MinusInfinity))
  {
    if |Strip(text)| == 0 {
      assert OccursAt(FullText(page.items), Strip(text), 0);
    }
  }

  /** `r` is a finite band of non-negative height enclosing `[ty - height, ty]`
      of every item whose index range meets `[startIndex, endIndex]`. */
  ghost predicate CoversKept(r: Rect, items: seq<Item>, startIndex: int, endIndex: int) {
    && r.top.Finite? && r.height.Finite? && r.height.v >= 0
    && forall k {:trigger CoversItem(r, items[k])} :: 0 <= k < |items| && Keeps(Entries(items)[k], startIndex, endIndex) ==>
         CoversItem(r, items[k])
  }

  /** The finite band of `r` encloses `[ty - height, ty]` of `it`. */
  predicate CoversItem(r: Rect, it: Item) {
    r.top.Finite? && r.height.Finite? && r.top.v <= Top(it) && it.ty <= r.top.v + r.height.v
  }

  /** For a match range inside the page text, the rectangle composed from
      the kept entries covers each of them. */
  lemma {:induction false} KeptRectCovers(items: seq<Item>, startIndex: int, endIndex: int, canvasWidth: Option<nat>, r: Rect)
    requires 0 <= startIndex <= endIndex <= |FullText(items)| && |items| > 0
    requires forall k :: 0 <= k < |items| ==> items[k].height >= 0
    requires r == MatchRect(items, startIndex, endIndex, canvasWidth)
    ensures CoversKept(r, items, startIndex, endIndex)
  {
    var index := Entries(items);
    var sel := Overlapping(index, startIndex, endIndex);
    EntriesIsIndex(items);
    SelectionEmptyIff(items, FullText(items), index, startIndex, endIndex);
    forall x | x in sel ensures x.item.height >= 0 {
      var j :| 0 <= j < |index| && index[j] == x;
    }
    RectEnclosesSelection(sel, canvasWidth);
    assert r == MakeRect(BandOf(sel), canvasWidth);
    forall k | 0 <= k < |items| && Keeps(index[k], startIndex, endIndex)
      ensures CoversItem(r, items[k])
    {
      assert index[k] in sel;
    }
  }

  /** On a matching page with items of non-negative height, the rectangle
      covers every item the filter keeps. */
  lemma RectCoversMatch(page: Page, text: string)
    requires Matches(page, text) && |page.items| > 0
    requires forall k :: 0 <= k < |page.items| ==> page.items[k].height >= 0
    ensures CoversKept(PageRect(page, text).value, page.items, Search(page, text), Search(page, text) + |Strip(text)|)
  {
    var s, e, r := MatchedPageRect(page, text);
    KeptRectCovers(page.items, s, e, page.canvasWidth, r);
  }

  /** On a matching page the match range lies inside the page text and the
      rectangle is the one composed from the entries that range keeps. */
  lemma MatchedPageRect(page: Page, text: string) returns (s: int, e: int, r: Rect)
    requires Matches(page, text)
    ensures s == Search(page, text) && e == s + |Strip(text)|
    ensures 0 <= s <= e <= |FullText(page.items)|
    ensures PageRect(page, text) == Some(r) && r == MatchRect(page.items, s, e, page.canvasWidth)
  {
    s, e := Search(page, text), Search(page, text) + |Strip(text)|;
    r := MatchRect(page.items, s, e, page.canvasWidth);
    MatchInRange(FullText(page.items), Strip(text));
    assert s != -1;
  }

  /** One iteration of the page loop: index the page's items, look for the
      normalised query and, on a match, compose the rectangle. */
  method SearchPage(page: Page, text: string) returns (rect: Option<Rect>)
    ensures rect == PageRect(page, text)
    ensures rect.Some? <==> Matches(page, text)
  {
    var fullText, entries := BuildIndex(page.items);
    var searchText := Strip(text);
    var startIndex := IndexOf(fullText, searchText);
    assert startIndex == Search(page, text);
    if startIndex == -1 {
      return None;
    }
    ghost var s, e, r := MatchedPageRect(page, text);
    var endIndex := startIndex + |searchText|;
    assert startIndex == s && endIndex == e && entries == Entries(page.items);
    var highlightItems := Overlapping(entries, startIndex, endIndex);
    assert highlightItems == Overlapping(Entries(page.items), s, e);
    var band := ComputeBand(highlightItems);
    assert MakeRect(band, page.canvasWidth) == r;
    rect := Some(MakeRect(band, page.canvasWidth));
  }

  /** The component's state that `highlightText` touches. */
  class PdfHighlighter {
    /** The loaded pages, in document order. */
    var pages: seq<Page>
    /** The selected reference. */
    var selectedIndex: Option<int>
    /** Every element of class `highlight` in the document. */
    var highlights: seq<Highlight>

    constructor ()
      ensures pages == [] && selectedIndex == None && highlights == []
    {
      pages, selectedIndex, highlights := [], None, [];
    }

    /** `setPages(loadedPages)` once the document has been loaded. */
    method SetPages(loaded: seq<Page>)
      modifies this
      ensures pages == loaded
      ensures selectedIndex == old(selectedIndex) && highlights == old(highlights)
    {
      pages := loaded;
    }

    /** `highlightText(text, index)`. The ghost result lists, in order, the
        positions of the pages whose text was fetched: the scan goes through
        the pages in document order and stops at the first matching one. */
    method HighlightText(text: string, index: int) returns (ghost examined: seq<int>)
      modifies this
      ensures pages == old(pages) && selectedIndex == Some(index)
      ensures |highlights| <= 1
      ensures FirstMatch(pages, text).None? ==> highlights == [] && examined == seq(|pages|, j => j)
      ensures FirstMatch(pages, text).Some? ==>
        var p := FirstMatch(pages, text).value;
        examined == seq(p + 1, j => j) && highlights == [Highlight(pages[p].pageNum, PageRect(pages[p], text).value)]
    {
      selectedIndex := Some(index);
      highlights := [];
      examined := [];
      var i := 0;
      while i < |pages|
        invariant 0 <= i <= |pages| && examined == seq(i, j => j)
        invariant pages == old(pages) && selectedIndex == Some(index) && highlights == []
        invariant FirstMatchFrom(pages, text, i) == FirstMatch(pages, text)
      {
        var page := pages[i];
        examined := examined + [i];
        assert examined == seq(i + 1, j => j);
        var rect := SearchPage(page, text);
        if rect.Some? {
          assert FirstMatchFrom(pages, text, i) == Some(i);
          highlights := highlights + [Highlight(page.pageNum, rect.value)];
          break;
        }
        i := i + 1;
      }
    }
  }
}
