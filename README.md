# pdf-highlighter: reference-text highlighting, modelled in Dafny

This project models `highlightText` in the `PDFHighlighter` React component.
That function takes a reference passage and marks the first page of a loaded
PDF whose text contains it. It works in four steps, and each step is a module here:

- **Normalize**: the `replace(/\s+/g, "")` applied to each text item and to the
  query. `IsWs` is the exact character set of JavaScript's `\s`: the ECMAScript
  WhiteSpace and LineTerminator code points.
- **FragmentIndex**: the loop over a page's text items. It concatenates their
  normalised strings into `fullText` and pushes a half-open range
  `{start, end, item}` per item onto the index (`map` in the source). `BuildIndex`
  is that loop. `FullText` and `Entries` are the functions that specify it.
- **MatchLocator**: `fullText.indexOf(searchText)` (`IndexOf`) and the inclusive
  overlap filter `!(end < startIndex || start > endIndex)` (`Overlapping`).
- **Region**: the `forEach` that folds `minY`/`maxY` over the kept items
  (`ComputeBand`, specified by `BandOf`). It also builds the full-width highlight
  rectangle (`MakeRect`). A JavaScript number is a `Coord`, so the case where
  no item was kept stays explicit: `top` is `Infinity` and `height` is
  `-Infinity`.
- **Highlighter**: the page scan. `PdfHighlighter.HighlightText` sets the selected
  reference and removes every existing highlight. It then examines the pages in
  order and appends one highlight to the first page that matches. After that
  page it stops, and no later page has its text fetched. `SearchPage` is the
  body of that loop. `PageRect` and `FirstMatch` are the functions that specify it.

Two behaviours of the code are kept as written:

- An empty or whitespace-only reference matches at offset 0 of the first page.
  Nothing rejects an empty query, so `"".indexOf("")` gives 0 and the model
  keeps that match (`WhitespaceQueryMatchesAtZero`,
  `WhitespaceQueryHighlightsFirstPage`).
- With an empty selection, `minY` stays `Infinity`. This happens only for a page
  without items and a query that normalises to the empty string
  (`SelectionEmptyIff`, `ImageOnlyPage`).

Integers stand in for JavaScript numbers. Each item's `ty` is the baseline after
the viewport transform (`tx[5]`), and `height` is its glyph height.

## Model

| member | source | states |
|---|---|---|
| Normalize.Strip | src/components/PDFHighlighter.tsx:86 | the normalised string is no longer than the input and contains no `\s` character |
| Normalize.StripConcat | src/components/PDFHighlighter.tsx:86-88 | normalising a concatenation equals concatenating the normalised parts |
| Normalize.StripNoWs | src/components/PDFHighlighter.tsx:93 | a string without whitespace is unchanged by normalisation |
| Normalize.StripIdempotent | src/components/PDFHighlighter.tsx:93 | normalising twice gives the same result as normalising once |
| Normalize.StripMultiset | src/components/PDFHighlighter.tsx:86 | every non-whitespace character keeps its number of occurrences; no whitespace character remains |
| Normalize.StripSubsequence | src/components/PDFHighlighter.tsx:86 | the remaining characters keep their original order |
| Normalize.StripAllWs | src/components/PDFHighlighter.tsx:93 | a whitespace-only string normalises to the empty string |
| Normalize.StripLength | src/components/PDFHighlighter.tsx:86 | the length stays the same exactly when the string has no whitespace |
| FragmentIndex.ItemText | src/components/PDFHighlighter.tsx:86 | a missing `str` gives the empty string; otherwise the normalised `str` |
| FragmentIndex.Entries | src/components/PDFHighlighter.tsx:90 | the index has one entry per item |
| FragmentIndex.FullTextIsStrippedRawText | src/components/PDFHighlighter.tsx:85-88 | the searched text is the normalised concatenation of the raw item strings |
| FragmentIndex.IsIndexAppend | src/components/PDFHighlighter.tsx:85-90 | one iteration of the loop, appending an item's normalised text and its range `[start, end)`, turns an index of the items so far into an index of the items including that one |
| FragmentIndex.EntriesIsIndex | src/components/PDFHighlighter.tsx:82-91 | entries follow item order; the first starts at 0; each starts where the previous ends; the last ends at the text length; each range holds exactly its item's normalised text, so whitespace-only items get zero-width ranges |
| FragmentIndex.BuildIndex | src/components/PDFHighlighter.tsx:82-91 | the loop yields `FullText` and `Entries`, and these form an index as above |
| MatchLocator.IndexOfFrom | src/components/PDFHighlighter.tsx:94 | the result is -1 when no occurrence exists at or after `from`; otherwise it is the lowest occurrence at or after `from` |
| MatchLocator.IndexOf | src/components/PDFHighlighter.tsx:94-97 | the result is -1 exactly when the query occurs nowhere; otherwise `text[r..r+|pat|] == pat` and no occurrence starts before `r` |
| MatchLocator.WhitespaceQueryMatchesAtZero | src/components/PDFHighlighter.tsx:93-96 | a whitespace-only or empty reference is found at offset 0 of any page text |
| MatchLocator.WhitespaceRobust | src/components/PDFHighlighter.tsx:85-94 | a reference equal, up to whitespace, to a stretch of the page's raw text is found at or before that stretch's normalised offset |
| MatchLocator.Overlapping | src/components/PDFHighlighter.tsx:99-101 | an entry is kept exactly when it is in the index and `end >= startIndex && start <= endIndex`; at most the whole index is kept |
| MatchLocator.OverlappingMultiset | src/components/PDFHighlighter.tsx:99-101 | each kept entry appears as many times as in the index, and a dropped entry not at all, so duplicate zero-width entries are all kept |
| MatchLocator.OverlappingSubsequence | src/components/PDFHighlighter.tsx:99-101 | the kept entries are an order-preserving subsequence of the index |
| MatchLocator.KeepsSharedAndTouching | src/components/PDFHighlighter.tsx:100 | an entry sharing a character with the match, or touching either end of it, is kept |
| MatchLocator.InclusiveBoundaryExample | src/components/PDFHighlighter.tsx:100 | for the match `[12, 22)`, fragments `[10,18)` and `[18,25)` are kept and `[2,10)` is not; a fragment `[2,12)` that only touches the match is kept |
| MatchLocator.SelectionEmptyIff | src/components/PDFHighlighter.tsx:96-101 | for a match inside the page text, the selection is empty exactly when the page has no items |
| Region.BandOfEncloses | src/components/PDFHighlighter.tsx:103-116 | the band is absent exactly for an empty selection; otherwise `[ty - h, ty]` of every kept item lies inside `[minY, maxY]`, some item attains `minY = ty - h`, and some item attains `maxY = ty` |
| Region.BandNonNegative | src/components/PDFHighlighter.tsx:111-116 | for a non-empty selection with non-negative heights, `minY <= maxY` |
| Region.RectEnclosesSelection | src/components/PDFHighlighter.tsx:103-131 | for a non-empty selection with non-negative heights, the rectangle has a finite top and a finite height `>= 0`, and it encloses every kept item |
| Region.ComputeBand | src/components/PDFHighlighter.tsx:103-116 | the `forEach` accumulation yields `BandOf`, absent exactly for an empty selection, enclosing and attained otherwise |
| Region.MakeRect | src/components/PDFHighlighter.tsx:118-131 | `left = 0`; `width` is the canvas width, or 0 without a canvas; `top = minY` and `height = maxY - minY`; without a band these are `Infinity` and `-Infinity` |
| Highlighter.PageRect | src/components/PDFHighlighter.tsx:78-131 | a rectangle exists exactly when the page's normalised text contains the normalised reference |
| Highlighter.FirstMatchFrom | src/components/PDFHighlighter.tsx:77-96 | the result is the lowest matching page from `from` on, or none when no such page matches |
| Highlighter.FirstMatch | src/components/PDFHighlighter.tsx:77-96 | the chosen page matches and no earlier page does; there is none exactly when no page matches |
| Highlighter.WhitespaceQueryHighlightsFirstPage | src/components/PDFHighlighter.tsx:93-96 | a whitespace-only or empty reference selects the first page |
| Highlighter.ImageOnlyPage | src/components/PDFHighlighter.tsx:85-104 | a page without items matches only a reference that normalises to the empty string; its rectangle then has `top = Infinity` and `height = -Infinity` |
| Highlighter.KeptRectCovers | src/components/PDFHighlighter.tsx:97-131 | for a page with at least one item, a match range inside the text and non-negative heights, the composed rectangle is finite, has height `>= 0` and covers every kept item |
| Highlighter.MatchedPageRect | src/components/PDFHighlighter.tsx:93-131 | on a matching page, `startIndex` and `endIndex = startIndex + searchText.length` lie inside the page text, and the page's rectangle is the one composed from the entries the filter keeps for that range |
| Highlighter.RectCoversMatch | src/components/PDFHighlighter.tsx:78-131 | on a matching page with items of non-negative height, the highlight covers `[ty - h, ty]` of every item the filter keeps |
| Highlighter.SearchPage | src/components/PDFHighlighter.tsx:78-131 | one page's index, search, filter and fold yield `PageRect`, present exactly when the page matches |
| Highlighter.PdfHighlighter.constructor | src/components/PDFHighlighter.tsx:25-29 | no pages, no selected reference, no highlights |
| Highlighter.PdfHighlighter.SetPages | src/components/PDFHighlighter.tsx:44 | replaces the page list and leaves the selection and the highlights unchanged |
| Highlighter.PdfHighlighter.HighlightText | src/components/PDFHighlighter.tsx:73-142 | selects `index`; old highlights are gone; with no matching page, no highlight and pages `0, 1, …, n-1` examined in that order; otherwise exactly one highlight, the `PageRect` of the first matching page `p`, with pages `0, 1, …, p` examined in that order and none after `p` |

## Left out

- PDF loading and page fetching (`getDocument`, `getPage`, lines 31-47) are asynchronous calls into pdf.js. The loaded pages are given to `SetPages`.
- Canvas rendering and render-task cancellation (lines 49-71) are concurrent drawing, outside the matching logic.
- `pdfjsLib.Util.transform` and `page.getViewport` (lines 79, 107-110) are floating-point matrix operations in pdf.js. Each item carries its transformed baseline `ty` and its `height` as integers. Rounding of JavaScript numbers is not modelled, so `(ty - h) + h == ty` holds exactly.
- The `await` on `getTextContent` is left out. The text items of each page are given. A rejected promise would abort the request, and that is not modelled. Requests are modelled as running one after another. In the code, a request that starts while an earlier one is suspended at that `await` does not cancel it: both go on to append their highlight, so more than one highlight can remain, one of them for a reference that is no longer selected. `HighlightText`'s `|highlights| <= 1` holds for a request that runs alone.
- DOM work (lines 121-138) is not modelled. That covers the element's colour and opacity, `scrollIntoView`, and the case where `getElementById` finds no page container, in which `?.appendChild` adds nothing. The model keeps the highlight value and assumes every page's container exists, since one is rendered for each loaded page.
- The React UI (lines 144-210) and the hard-coded `references` data (lines 8-21) are not modelled. The reference string and its index are parameters of `HighlightText`.
- Strings are sequences of `char`, and offsets count one per `char`. JavaScript counts UTF-16 code units, so characters outside the Basic Multilingual Plane, which take two code units, shift offsets differently there. Every `\s` character is in the Basic Multilingual Plane, so normalisation is unaffected.
