/** The region compositor: the `minY`/`maxY` fold over the kept items and the
    full-width highlight rectangle built from it. */
module Region {
  import opened Wrappers
  import opened FragmentIndex

  /** A JavaScript number as it appears here: finite, or one of the infinities
      that `minY` and `maxY` start from. */
  datatype Coord = Finite(v: int) | PlusInfinity | MinusInfinity

  /** The vertical band `[minY, maxY]` of a non-empty selection. */
  datatype Band = Band(minY: int, maxY: int)

  /** The style of the highlight element: `left`, `top`, `width`, `height` in pixels. */
  datatype Rect = Rect(left: int, top: Coord, width: nat, height: Coord)

  /** `y = tx[5] - item.height`, the top of the item. */
  function Top(it: Item): int {
    it.ty - it.height
  }

  function Min(a: int, b: int): int {
    if a <= b then a else b
  }

  function Max(a: int, b: int): int {
    if a >= b then a else b
  }

  /** The fold of the source, step by step: `None` stands for the starting pair
      `minY = Infinity, maxY = -Infinity`. */
  function BandOf(sel: seq<Entry>): Option<Band> {
    if |sel| == 0 then None
    else
      var it := sel[|sel| - 1].item;
      var y, h := Top(it), it.height;
      match BandOf(sel[..|sel| - 1])
      case None => Some(Band(y, y + h))
      case Some(b) => Some(Band(Min(b.minY, y), Max(b.maxY, y + h)))
  }

  /** The band encloses `[ty - height, ty]` of every selected item, and both of
      its ends are attained by some item. */
  ghost predicate Encloses(sel: seq<Entry>, b: Band) {
    && (forall k :: 0 <= k < |sel| ==> b.minY <= Top(sel[k].item) && sel[k].item.ty <= b.maxY)
    && (exists k :: 0 <= k < |sel| && b.minY == Top(sel[k].item))
    && (exists k :: 0 <= k < |sel| && b.maxY == sel[k].item.ty)
  }

  /** The band is absent exactly for an empty selection; otherwise it is the
      tightest band around the selected items. */
  lemma {:induction false} BandOfEncloses(sel: seq<Entry>)
    ensures BandOf(sel).None? <==> |sel| == 0
    ensures BandOf(sel).Some? ==> Encloses(sel, BandOf(sel).value)
  {
    if |sel| > 0 {
      var n := |sel| - 1;
      var prefix := sel[..n];
      BandOfEncloses(prefix);
      var b := BandOf(sel).value;
      var it := sel[n].item;
      assert b.minY <= Top(it) && it.ty <= b.maxY;
      if n == 0 {
        assert b.minY == Top(sel[0].item) && b.maxY == sel[0].item.ty;
      } else {
        var p := BandOf(prefix).value;
        forall k | 0 <= k < n ensures b.minY <= Top(sel[k].item) && sel[k].item.ty <= b.maxY {
          assert sel[k] == prefix[k];
        }
        var i :| 0 <= i < n && p.minY == Top(prefix[i].item);
        var j :| 0 <= j < n && p.maxY == prefix[j].item.ty;
        assert prefix[i] == sel[i] && prefix[j] == sel[j];
        if p.minY <= Top(it) {
          assert b.minY == Top(sel[i].item);
        } else {
          assert b.minY == Top(sel[n].item);
        }
        if p.maxY >= it.ty {
          assert b.maxY == sel[j].item.ty;
        } else {
          assert b.maxY == sel[n].item.ty;
        }
      }
    }
  }

  /** With non-negative heights the band has non-negative height. */
  lemma {:induction false} BandNonNegative(sel: seq<Entry>)
    requires forall e :: e in sel ==> e.item.height >= 0
    requires |sel| > 0
    ensures BandOf(sel).Some? && BandOf(sel).value.minY <= BandOf(sel).value.maxY
  {
    BandOfEncloses(sel);
    var b := BandOf(sel).value;
    var k :| 0 <= k < |sel| && b.minY == Top(sel[k].item);
  }

  /** The rectangle of a non-empty selection with non-negative heights is a
      finite band of non-negative height enclosing every selected item. */
  lemma {:induction false} RectEnclosesSelection(sel: seq<Entry>, canvasWidth: Option<nat>)
    requires |sel| > 0
    requires forall e :: e in sel ==> e.item.height >= 0
    ensures var r := MakeRect(BandOf(sel), canvasWidth);
      && r.top.Finite? && r.height.Finite? && r.height.v >= 0
      && forall e :: e in sel ==> r.top.v <= Top(e.item) && e.item.ty <= r.top.v + r.height.v
  {
    BandNonNegative(sel);
    BandOfEncloses(sel);
    var b := BandOf(sel).value;
    forall e | e in sel ensures b.minY <= Top(e.item) && e.item.ty <= b.maxY {
      var m :| 0 <= m < |sel| && sel[m] == e;
    }
  }

  /** The `forEach` that updates `minY` and `maxY`. */
  method ComputeBand(sel: seq<Entry>) returns (band: Option<Band>)
    ensures band == BandOf(sel)
    ensures band.None? <==> |sel| == 0
    ensures band.Some? ==> Encloses(sel, band.value)
  {
    band := None;
    var i := 0;
    while i < |sel|
      invariant 0 <= i <= |sel|
      invariant band == BandOf(sel[..i])
    {
      var item := sel[i].item;
      var y := item.ty - item.height;
      var h := item.height;
      band := match band
        case None => Some(Band(y, y + h))
        case Some(b) => Some(Band(Min(b.minY, y), Max(b.maxY, y + h)));
      assert sel[..i + 1][..i] == sel[..i];
      i := i + 1;
    }
    assert sel[..i] == sel;
    BandOfEncloses(sel);
  }

  /** `canvas?.width || 0`: the canvas width, or 0 without a canvas. */
  function PageWidth(canvasWidth: Option<nat>): nat {
    match canvasWidth case Some(w) => w case None => 0
  }

  /** The highlight rectangle: full width from `left = 0`, `top = minY` and
      `height = maxY - minY`; without a band these are the JavaScript values
      `Infinity` and `-Infinity - Infinity = -Infinity`. */
  function MakeRect(band: Option<Band>, canvasWidth: Option<nat>): (r: Rect)
    ensures r.left == 0 && r.width == PageWidth(canvasWidth)
    ensures band.None? ==> r.top == PlusInfinity && r.height == MinusInfinity
    ensures band.Some? ==> r.top == Finite(band.value.minY) && r.height == Finite(band.value.maxY - band.value.minY)
  {
    match band
    case None => Rect(0, PlusInfinity, PageWidth(canvasWidth), MinusInfinity)
    case Some(b) => Rect(0, Finite(b.minY), PageWidth(canvasWidth), Finite(b.maxY - b.minY))
  }
}
