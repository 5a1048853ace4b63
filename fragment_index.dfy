/** The fragment indexer: the loop that concatenates the normalised text of
    every text item of a page and records each item's character range. */
module FragmentIndex {
  import opened Wrappers
  import opened Normalize

  /** A text item of a page. `str` may be absent; `ty` is the baseline after the
      viewport transform has been applied (the `tx[5]` of the source) and
      `height` is the item's glyph height. */
  datatype Item = Item(str: Option<string>, ty: int, height: int)

  /** One record of the index: the half-open range `[start, end)` that the item
      occupies in the concatenated text. */
  datatype Entry = Entry(start: nat, end: nat, item: Item)

  /** `item.str || ""`: a missing string counts as empty. */
  function RawStr(it: Item): string {
    match it.str case Some(s) => s case None => ""
  }

  /** `(item.str || "").replace(/\s+/g, "")`. */
  function ItemText(it: Item): (r: string)
    ensures it.str.None? ==> r == []
    ensures it.str.Some? ==> r == Strip(it.str.value)
  {
    Strip(RawStr(it))
  }

  /** The raw text of the items, joined without separators. */
  function RawText(items: seq<Item>): string {
    if |items| == 0 then [] else RawText(items[..|items| - 1]) + RawStr(items[|items| - 1])
  }

  /** The page text that is searched: the normalised item texts in item order. */
  function FullText(items: seq<Item>): string {
    if |items| == 0 then [] else FullText(items[..|items| - 1]) + ItemText(items[|items| - 1])
  }

  /** The index the loop builds, one entry per item, appended in item order. */
  function Entries(items: seq<Item>): (r: seq<Entry>)
    ensures |r| == |items|
  {
    if |items| == 0 then []
    else
      var prefix := items[..|items| - 1];
      Entries(prefix) + [Entry(|FullText(prefix)|, |FullText(items)|, items[|items| - 1])]
  }

  /** What an index of `items` over `text` is: one entry per item in item
      order, contiguous ranges from 0 to the end of the text, and each range
      holding exactly that item's normalised text. */
  ghost predicate IsIndex(items: seq<Item>, text: string, index: seq<Entry>) {
    && |index| == |items|
    && (|index| == 0 ==> |text| == 0)
    && (|index| > 0 ==> index[0].start == 0 && index[|index| - 1].end == |text|)
    && (forall k :: 0 <= k < |index| - 1 ==> index[k].end == index[k + 1].start)
    && (forall k :: 0 <= k < |index| ==>
          && index[k].item == items[k]
          && index[k].start <= index[k].end <= |text|
          && text[index[k].start..index[k].end] == ItemText(items[k]))
  }

  /** The normalised page text is the normalised raw text. */
  lemma {:induction false} FullTextIsStrippedRawText(items: seq<Item>)
    ensures FullText(items) == Strip(RawText(items))
  {
    if |items| > 0 {
      var prefix := items[..|items| - 1];
      FullTextIsStrippedRawText(prefix);
      StripConcat(RawText(prefix), RawStr(items[|items| - 1]));
    }
  }

  /** Extending a text leaves its slices unchanged. */
  lemma SliceOfExtended(text: string, more: string, i: nat, j: nat)
    requires i <= j <= |text|
    ensures (text + more)[i..j] == text[i..j]
  {
  }

  /** Appending keeps the ranges of the entries already in an index. */
  lemma AppendKeepsRanges(items: seq<Item>, text: string, index: seq<Entry>, it: Item, e: Entry, t: string)
    requires IsIndex(items, text, index)
    ensures forall k :: 0 <= k < |index| ==>
      && (index + [e])[k] == index[k] && (items + [it])[k] == items[k]
      && (text + t)[index[k].start..index[k].end] == ItemText(items[k])
  {
    forall k | 0 <= k < |index|
      ensures (text + t)[index[k].start..index[k].end] == ItemText(items[k])
    {
      SliceOfExtended(text, t, index[k].start, index[k].end);
    }
  }

  /** Appending one item and its range keeps an index an index. */
  lemma IsIndexAppend(items: seq<Item>, text: string, index: seq<Entry>, it: Item)
    requires IsIndex(items, text, index)
    ensures IsIndex(items + [it], text + ItemText(it), index + [Entry(|text|, |text| + |ItemText(it)|, it)])
  {
    var t := ItemText(it);
    var e := Entry(|text|, |text| + |t|, it);
    AppendKeepsRanges(items, text, index, it, e, t);
    assert (text + t)[|text|..|text + t|] == t;
  }

  /** `Entries` is an index of `FullText`. */
  lemma {:induction false} EntriesIsIndex(items: seq<Item>)
    ensures IsIndex(items, FullText(items), Entries(items))
  {
    if |items| > 0 {
      var n := |items| - 1;
      var prefix := items[..n];
      EntriesIsIndex(prefix);
      IsIndexAppend(prefix, FullText(prefix), Entries(prefix), items[n]);
      assert prefix + [items[n]] == items;
    }
  }

  /** The loop of the source: `fullText += itemText` and `map.push({start, end, item})`. */
  method BuildIndex(items: seq<Item>) returns (fullText: string, index: seq<Entry>)
    ensures fullText == FullText(items) && index == Entries(items)
    ensures IsIndex(items, fullText, index)
  {
    fullText, index := "", [];
    var i := 0;
    while i < |items|
      invariant 0 <= i <= |items|
      invariant fullText == FullText(items[..i])
      invariant index == Entries(items[..i])
    {
      var item := items[i];
      var itemText := ItemText(item);
      var start := |fullText|;
      fullText := fullText + itemText;
      var end := |fullText|;
      index := index + [Entry(start, end, item)];
      assert items[..i + 1][..i] == items[..i];
      i := i + 1;
    }
    assert items[..i] == items;
    EntriesIsIndex(items);
  }
}
