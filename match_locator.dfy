/** The match locator: `fullText.indexOf(searchText)` and the inclusive
    overlap filter over the index. */
module MatchLocator {
  import opened Sequences
  import opened Normalize
  import opened FragmentIndex

  /** `pat` occurs in `text` starting at offset `k`. */
  predicate OccursAt(text: string, pat: string, k: int) {
    0 <= k && k + |pat| <= |text| && text[k..k + |pat|] == pat
  }

  /** The search behind `indexOf`, trying offsets from `from` upwards. */
  function IndexOfFrom(text: string, pat: string, from: nat): (r: int)
    decreases |text| - from
    ensures r == -1 || (from <= r && OccursAt(text, pat, r))
    ensures r == -1 ==> forall k :: from <= k ==> !OccursAt(text, pat, k)
    ensures r != -1 ==> forall k :: from <= k < r ==> !OccursAt(text, pat, k)
  {
    if from + |pat| > |text| then -1
    else if text[from..from + |pat|] == pat then from
    else IndexOfFrom(text, pat, from + 1)
  }

  /** `text.indexOf(pat)`: the lowest offset at which `pat` occurs, or -1 when
      it occurs nowhere. The empty pattern occurs at offset 0 of every text. */
  function IndexOf(text: string, pat: string): (r: int)
    ensures r == -1 <==> forall k :: !OccursAt(text, pat, k)
    ensures r != -1 ==> OccursAt(text, pat, r) && forall k :: 0 <= k < r ==> !OccursAt(text, pat, k)
  {
    IndexOfFrom(text, pat, 0)
  }


  /** A found match lies inside the text. */
  lemma MatchInRange(text: string, pat: string)
    requires IndexOf(text, pat) != -1
    ensures 0 <= IndexOf(text, pat) <= IndexOf(text, pat) + |pat| <= |text|
  {
  }

  /** An empty or whitespace-only query matches at offset 0 of any page text,
      since nothing guards against the empty search string. */
  lemma {:induction false} WhitespaceQueryMatchesAtZero(text: string, query: string)
    requires forall i :: 0 <= i < |query| ==> IsWs(query[i])
    ensures IndexOf(text, Strip(query)) == 0
  {
    StripAllWs(query);
    assert OccursAt(text, [], 0);
  }

  /** A query whose normalised form equals the normalised form of some stretch
      of the page's raw text is found, however the whitespace differs, at or
      before the offset at which that stretch begins. */
  lemma WhitespaceRobust(items: seq<Item>, pre: string, found: string, post: string, query: string)
    requires RawText(items) == pre + found + post
    requires Strip(found) == Strip(query)
    ensures IndexOf(FullText(items), Strip(query)) != -1
    ensures IndexOf(FullText(items), Strip(query)) <= |Strip(pre)|
  {
    FullTextIsStrippedRawText(items);
    StripConcat(pre + found, post);
    StripConcat(pre, found);
    var text := FullText(items);
    assert text == Strip(pre) + Strip(query) + Strip(post);
    assert text[|Strip(pre)|..|Strip(pre)| + |Strip(query)|] == Strip(query);
    assert OccursAt(text, Strip(query), |Strip(pre)|);
  }

  /** The filter's test `!(end < startIndex || start > endIndex)`: inclusive at both ends. */
  predicate Keeps(e: Entry, startIndex: int, endIndex: int) {
    !(e.end < startIndex || e.start > endIndex)
  }

  /** `map.filter(...)`: the entries whose range meets the closed interval
      `[startIndex, endIndex]`. */
  function Overlapping(index: seq<Entry>, startIndex: int, endIndex: int): (r: seq<Entry>)
    ensures |r| <= |index|
    ensures forall e :: e in r <==> e in index && Keeps(e, startIndex, endIndex)
  {
    if |index| == 0 then []
    else (if Keeps(index[0], startIndex, endIndex) then [index[0]] else []) + Overlapping(index[1..], startIndex, endIndex)
  }

  /** The kept entries are a subsequence of the index, in index order. */
  lemma {:induction false} OverlappingSubsequence(index: seq<Entry>, startIndex: int, endIndex: int)
    ensures IsSubsequence(Overlapping(index, startIndex, endIndex), index)
  {
    if |index| > 0 {
      var r := Overlapping(index, startIndex, endIndex);
      OverlappingSubsequence(index[1..], startIndex, endIndex);
      if Keeps(index[0], startIndex, endIndex) {
        assert r[0] == index[0] && r[1..] == Overlapping(index[1..], startIndex, endIndex);
      } else {
        assert r == Overlapping(index[1..], startIndex, endIndex);
      }
    }
  }

  /** The filter keeps every copy of a kept entry and no copy of a dropped one. */
  lemma {:induction false} OverlappingMultiset(index: seq<Entry>, startIndex: int, endIndex: int, e: Entry)
    ensures multiset(Overlapping(index, startIndex, endIndex))[e]
      == if Keeps(e, startIndex, endIndex) then multiset(index)[e] else 0
  {
    if |index| > 0 {
      OverlappingMultiset(index[1..], startIndex, endIndex, e);
      assert index == [index[0]] + index[1..];
      assert multiset(index) == multiset([index[0]]) + multiset(index[1..]);
    }
  }

  /** Every entry sharing a character with the match is kept, and so is every
      entry that only touches the match at either end. */
  lemma KeepsSharedAndTouching(index: seq<Entry>, startIndex: int, endIndex: int, k: nat)
    requires k < |index|
    requires startIndex <= endIndex
    requires index[k].start <= index[k].end
    requires (index[k].start < endIndex && startIndex < index[k].end)
          || index[k].end == startIndex || index[k].start == endIndex
    ensures index[k] in Overlapping(index, startIndex, endIndex)
  {
  }

  /** Two fragments that share characters with the match `[12, 22)` are kept
      and the one ending at 10 is not; an entry ending exactly at 12, which
      shares no character with the match, is kept all the same. */
  lemma InclusiveBoundaryExample(a: Item, b: Item, c: Item)
    ensures Overlapping([Entry(2, 10, a), Entry(10, 18, b), Entry(18, 25, c)], 12, 22) == [Entry(10, 18, b), Entry(18, 25, c)]
    ensures Overlapping([Entry(2, 12, a), Entry(12, 18, b)], 12, 22) == [Entry(2, 12, a), Entry(12, 18, b)]
  {
    var index := [Entry(2, 10, a), Entry(10, 18, b), Entry(18, 25, c)];
    assert index[1..] == [Entry(10, 18, b), Entry(18, 25, c)];
    assert index[1..][1..] == [Entry(18, 25, c)];
    assert [Entry(18, 25, c)][1..] == [];
    assert Overlapping([Entry(18, 25, c)], 12, 22) == [Entry(18, 25, c)];
    assert Overlapping(index[1..], 12, 22) == [Entry(10, 18, b), Entry(18, 25, c)];
    var touching := [Entry(2, 12, a), Entry(12, 18, b)];
    assert touching[1..] == [Entry(12, 18, b)];
  }

  /** In a contiguous index, some entry from `k` on covers any offset between
      that entry's start and the end of the text. */
  lemma {:induction false} CoveringEntry(items: seq<Item>, text: string, index: seq<Entry>, k: nat, p: int)
    returns (j: nat)
    requires IsIndex(items, text, index)
    requires k < |index| && index[k].start <= p <= |text|
    ensures k <= j < |index| && index[j].start <= p <= index[j].end
    decreases |index| - k
  {
    if p <= index[k].end {
      j := k;
    } else {
      assert k + 1 < |index|;
      j := CoveringEntry(items, text, index, k + 1, p);
    }
  }

  /** For a match inside the page text, the selection is empty exactly when
      the page has no items. */
  lemma SelectionEmptyIff(items: seq<Item>, text: string, index: seq<Entry>, startIndex: int, endIndex: int)
    requires IsIndex(items, text, index)
    requires 0 <= startIndex <= endIndex <= |text|
    ensures |Overlapping(index, startIndex, endIndex)| == 0 <==> |items| == 0
  {
    if |items| > 0 {
      var j := CoveringEntry(items, text, index, 0, startIndex);
      assert index[j] in Overlapping(index, startIndex, endIndex);
    }
  }
}
