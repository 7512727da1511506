/**
 * Bit images: an image, or a rectangular region of one, is a view into a flat buffer of
 * bits. Row `y` of a view starts `y * frameWidth` bits after the view's first bit; the
 * view covers `width` bits of each of its `height` rows. A whole `Image<W, H, S>` is the
 * view with frame width `W` that starts at bit 0.
 */
module BitImage {
  import opened Base

  /** The bits `data` of an `ImageRegion`/`ImageRegionMut`, as an offset into the buffer of
   *  the image it was cut from, with the region's frame width and extent. */
  datatype View = View(offset: nat, frameWidth: nat, width: nat, height: nat)

  /** The view of a whole `W` by `H` image (`Image::as_region`). */
  function ImageView(w: nat, h: nat): View
  {
    View(0, w, w, h)
  }

  /** The distance from the first bit of row 0 to the first bit of row `y`, that is
   *  `y * frameWidth`, written as repeated addition so that proofs about positions stay
   *  linear. */
  function Rows(y: nat, frameWidth: nat): nat
  {
    if y == 0 then 0 else Rows(y - 1, frameWidth) + frameWidth
  }

  lemma {:induction false} RowsIsProduct(y: nat, frameWidth: nat)
    ensures Rows(y, frameWidth) == y * frameWidth
  {
    if y > 0 {
      RowsIsProduct(y - 1, frameWidth);
    }
  }

  lemma {:induction false} RowsAdd(a: nat, b: nat, frameWidth: nat)
    ensures Rows(a + b, frameWidth) == Rows(a, frameWidth) + Rows(b, frameWidth)
    decreases b
  {
    if b > 0 {
      RowsAdd(a, b - 1, frameWidth);
    }
  }

  lemma RowsMonotone(a: nat, b: nat, frameWidth: nat)
    requires a <= b
    ensures Rows(a, frameWidth) <= Rows(b, frameWidth)
  {
    RowsAdd(a, b - a, frameWidth);
  }

  lemma RowBefore(a: nat, b: nat, frameWidth: nat)
    requires a < b
    ensures Rows(a, frameWidth) + frameWidth <= Rows(b, frameWidth)
  {
    RowsMonotone(a + 1, b, frameWidth);
  }

  /** How many bits the region's data slice holds: from its first pixel to its last. */
  function DataLength(v: View): nat
  {
    if v.height > 0 then Rows(v.height - 1, v.frameWidth) + v.width else 0
  }

  /** Rows do not overlap and the data slice lies inside a buffer of `len` bits. */
  predicate ValidView(v: View, len: nat)
  {
    v.width <= v.frameWidth && v.offset + DataLength(v) <= len
  }

  /** The buffer position of pixel (x, y) of the view. */
  function Cell(v: View, x: nat, y: nat): nat
  {
    v.offset + Rows(y, v.frameWidth) + x
  }

  /** Buffer position `i` belongs to one of the first `rows` rows of the view. */
  predicate InRows(i: int, v: View, rows: nat)
  {
    rows > 0 && (InRows(i, v, rows - 1) || Cell(v, 0, rows - 1) <= i < Cell(v, 0, rows - 1) + v.width)
  }

  /** Buffer position `i` holds a pixel of the view. */
  predicate InView(i: int, v: View)
  {
    InRows(i, v, v.height)
  }

  /** Every pixel of a valid view lies inside its data slice. */
  lemma CellInData(v: View, x: nat, y: nat)
    requires v.width <= v.frameWidth && x < v.width && y < v.height
    ensures v.offset <= Cell(v, x, y) < v.offset + DataLength(v)
  {
    RowsMonotone(y, v.height - 1, v.frameWidth);
  }

  /** Pixel (x, y) of the view `v` of the bits `bits`. */
  function Pixel(bits: seq<bool>, v: View, x: nat, y: nat): bool
    requires ValidView(v, |bits|) && x < v.width && y < v.height
  {
    CellInData(v, x, y);
    bits[Cell(v, x, y)]
  }

  /** A pixel in an earlier row lies before every pixel of a later row. */
  lemma CellRowOrder(v: View, x1: nat, y1: nat, x2: nat, y2: nat)
    requires v.width <= v.frameWidth && x1 < v.width && y1 < y2
    ensures Cell(v, x1, y1) < Cell(v, x2, y2)
  {
    RowBefore(y1, y2, v.frameWidth);
  }

  /** `InView` means what it says: the buffer position of some pixel, and of no other. */
  lemma {:induction false} InRowsCell(v: View, rows: nat, x: nat, y: nat)
    requires v.width <= v.frameWidth && x < v.width
    ensures InRows(Cell(v, x, y), v, rows) <==> y < rows
    decreases rows
  {
    if rows > 0 {
      InRowsCell(v, rows - 1, x, y);
      if y < rows - 1 {
        CellRowOrder(v, x, y, 0, rows - 1);
      } else if y > rows - 1 {
        CellRowOrder(v, v.width - 1, rows - 1, x, y);
      }
    }
  }

  /** `region_data_range(x, y, width, height, frame_width)` (panics unless the region fits
   *  the frame horizontally): the data range of a region, as its first and its end bit. */
  function RegionDataRange(x: nat, y: nat, width: nat, height: nat, frameWidth: nat): (r: (nat, nat))
    requires x + width <= frameWidth
    ensures r.0 <= r.1
  {
    var offset := x + Rows(y, frameWidth);
    var length := if height > 0 then Rows(height - 1, frameWidth) + width else 0;
    (offset, offset + length)
  }

  /** The range runs from the region's top-left pixel to just past its bottom-right pixel
   *  and covers every pixel of the region; it is empty for an empty height. */
  lemma RegionDataRangeTight(x: nat, y: nat, width: nat, height: nat, frameWidth: nat)
    requires x + width <= frameWidth
    ensures var r := RegionDataRange(x, y, width, height, frameWidth);
      && r.0 == Cell(View(0, frameWidth, frameWidth, 0), x, y)
      && (height == 0 ==> r.0 == r.1)
      && (height > 0 ==> r.1 == Cell(View(0, frameWidth, frameWidth, 0), x + width, y + height - 1))
      && (forall px: nat, py: nat | x <= px < x + width && y <= py < y + height ::
            r.0 <= Cell(View(0, frameWidth, frameWidth, 0), px, py) < r.1)
  {
    if height > 0 {
      RowsAdd(y, height - 1, frameWidth);
    }
    var r := RegionDataRange(x, y, width, height, frameWidth);
    forall px: nat, py: nat | x <= px < x + width && y <= py < y + height
      ensures r.0 <= Cell(View(0, frameWidth, frameWidth, 0), px, py) < r.1
    {
      RowsAdd(y, py - y, frameWidth);
      RowsMonotone(py - y, height - 1, frameWidth);
    }
  }

  /** `Image::as_region`: frame width `W`, and the data slice is exactly the `W * H` bits
   *  of the image, pixel (x, y) being bit `y * W + x`. */
  lemma AsRegionCovers(w: nat, h: nat)
    ensures ImageView(w, h).frameWidth == w && DataLength(ImageView(w, h)) == w * h
    ensures ValidView(ImageView(w, h), w * h)
    ensures forall x: nat, y: nat :: Cell(ImageView(w, h), x, y) == y * w + x
  {
    if h > 0 {
      RowsIsProduct(h - 1, w);
    }
    forall x: nat, y: nat
      ensures Cell(ImageView(w, h), x, y) == y * w + x
    {
      RowsIsProduct(y, w);
    }
  }

  /** What `region` and `region_mut` demand: the region fits the frame horizontally
   *  (`region_data_range`'s panic) and its data range lies in the view's data slice
   *  (the slice index's panic). */
  predicate RegionFits(v: View, x: nat, y: nat, width: nat, height: nat)
  {
    x + width <= v.frameWidth && RegionDataRange(x, y, width, height, v.frameWidth).1 <= DataLength(v)
  }

  /** `region(x, y, width, height)`: the sub-view whose pixel (xx, yy) is pixel
   *  (x + xx, y + yy) of `v`, and whose data lies inside that of `v`. */
  function Region(v: View, x: nat, y: nat, width: nat, height: nat): (r: View)
    requires RegionFits(v, x, y, width, height)
    ensures r.frameWidth == v.frameWidth && r.width == width && r.height == height
    ensures r.width <= r.frameWidth && r.offset + DataLength(r) <= v.offset + DataLength(v)
    ensures forall xx: nat, yy: nat :: Cell(r, xx, yy) == Cell(v, x + xx, y + yy)
  {
    var range := RegionDataRange(x, y, width, height, v.frameWidth);
    var r := View(v.offset + range.0, v.frameWidth, width, height);
    assert forall xx: nat, yy: nat :: Cell(r, xx, yy) == Cell(v, x + xx, y + yy) by {
      forall xx: nat, yy: nat
        ensures Cell(r, xx, yy) == Cell(v, x + xx, y + yy)
      {
        RowsAdd(y, yy, v.frameWidth);
      }
    }
    r
  }

  /** A rectangle of at least one row inside a valid view always fits. */
  lemma SubRectFits(v: View, x: nat, y: nat, width: nat, height: nat)
    requires v.width <= v.frameWidth && x + width <= v.width && y + height <= v.height && height > 0
    ensures RegionFits(v, x, y, width, height)
  {
    RowsAdd(y, height - 1, v.frameWidth);
    RowsMonotone(y + (height - 1), v.height - 1, v.frameWidth);
  }

  /** `copy_from`: copies `other` into the view `dst` of `buf`, row by row. It panics when
   *  the heights differ, and `copy_from_bitslice` panics when the widths differ. Every
   *  pixel of `dst` gets the pixel of `other` at the same place; every other bit of the
   *  buffer is kept. */
  method CopyFrom(buf: array<bool>, dst: View, src: seq<bool>, other: View)
    requires other.height == dst.height && other.width == dst.width
    requires ValidView(dst, buf.Length) && ValidView(other, |src|)
    modifies buf
    ensures forall x: nat, y: nat | x < dst.width && y < dst.height :: Pixel(buf[..], dst, x, y) == Pixel(src, other, x, y)
    ensures forall i | 0 <= i < buf.Length && !InView(i, dst) :: buf[i] == old(buf[i])
  {
    var y := 0;
    while y < dst.height
      invariant 0 <= y <= dst.height
      invariant forall x: nat, yy: nat | x < dst.width && yy < y :: Pixel(buf[..], dst, x, yy) == Pixel(src, other, x, yy)
      invariant forall i | 0 <= i < buf.Length && !InRows(i, dst, y) :: buf[i] == old(buf[i])
    {
      if dst.width > 0 {
        CellInData(dst, dst.width - 1, y);
        CellInData(other, dst.width - 1, y);
      }
      // row_bits_mut(y).copy_from_bitslice(other.row_bits(y))
      var d := Cell(dst, 0, y);
      var s := Cell(other, 0, y);
      forall x | 0 <= x < dst.width {
        buf[d + x] := src[s + x];
      }
      forall x, yy | 0 <= x < dst.width && 0 <= yy < y
        ensures Cell(dst, x, yy) < d
      {
        CellRowOrder(dst, x, yy, 0, y);
      }
      y := y + 1;
    }
  }

  /** `ClippingInfo`: how much of a pasted image is visible. */
  datatype ClippingInfo = NoClipping | SomeClipping | Hidden

  /** `ClippingInfo::merge`, the clipping of two drawn objects together: nothing is
   *  clipped only when neither is, everything is hidden only when both are. */
  function Merge(a: ClippingInfo, b: ClippingInfo): (r: ClippingInfo)
    ensures r == NoClipping <==> a == NoClipping && b == NoClipping
    ensures r == Hidden <==> a == Hidden && b == Hidden
  {
    match a
    case NoClipping => (match b
      case NoClipping => NoClipping
      case SomeClipping | Hidden => SomeClipping)
    case SomeClipping => SomeClipping
    case Hidden => (match b
      case NoClipping | SomeClipping => SomeClipping
      case Hidden => Hidden)
  }

  lemma MergeLaws(a: ClippingInfo, b: ClippingInfo, c: ClippingInfo)
    ensures Merge(a, b) == Merge(b, a)
    ensures Merge(Merge(a, b), c) == Merge(a, Merge(b, c))
    ensures Merge(a, a) == a
  {
  }

  /** The outcome of clipping one axis: the new target start and length and the start
   *  inside the source image. */
  datatype Clip = Clip(start: int, length: nat, srcStart: nat)

  /** The target interval [start, start + length). */
  predicate InRange(p: int, start: int, length: int)
  {
    start <= p < start + length
  }

  /** `clip_range(&mut start, &mut length, window)`, as written. The `checked_sub` panics
   *  for `i32::MIN`, the two `try_into` for values from 2^31 on. The start is moved to 0
   *  and the source start is the amount cut off on the left, but the length is only cut
   *  on the right. */
  function ClipRange(start: I32, length: U32, window: U32): (r: Clip)
    requires start > -TWO_POW_31 && length < TWO_POW_31 && window < TWO_POW_31
    ensures r.start >= 0 && r.length <= length && r.srcStart <= length
    ensures r.length == 0 || r.start + r.length <= window
    ensures start >= 0 ==> r.start == start && r.srcStart == 0
    ensures start < 0 ==> r.start == 0 && r.srcStart == Min(-start, length) && r.length == Min(length, window)
  {
    var newStart := Max(start, 0);
    var srcStart := Min(newStart - start, length);
    var remaining := Max(window - newStart, 0);
    Clip(newStart, Min(length, remaining), srcStart)
  }

  /** The clipping `paste_and_clip` evidently intends: the target interval becomes its
   *  intersection with the window, and the source start and the target start differ by
   *  the original start. */
  function ClipRangeFixed(start: I32, length: U32, window: U32): (r: Clip)
    requires start > -TWO_POW_31 && length < TWO_POW_31 && window < TWO_POW_31
    ensures r.start >= 0 && r.srcStart + r.length <= length
    ensures r.length == 0 || r.start + r.length <= window
    ensures r.length > 0 ==> r.start - r.srcStart == start
    ensures forall p :: InRange(p, start, length) && InRange(p, 0, window) <==> InRange(p, r.start, r.length)
  {
    var newStart := Max(start, 0);
    var srcStart := Min(newStart - start, length);
    var remaining := Max(window - newStart, 0);
    Clip(newStart, Min(length - srcStart, remaining), srcStart)
  }

  /** For a start that is not negative both clippings agree; for a negative one they
   *  agree on the starts, and the length as written is never the shorter one. */
  lemma ClipRangesAgree(start: I32, length: U32, window: U32)
    requires start > -TWO_POW_31 && length < TWO_POW_31 && window < TWO_POW_31
    ensures start >= 0 ==> ClipRange(start, length, window) == ClipRangeFixed(start, length, window)
    ensures ClipRange(start, length, window).start == ClipRangeFixed(start, length, window).start
    ensures ClipRange(start, length, window).srcStart == ClipRangeFixed(start, length, window).srcStart
    ensures ClipRange(start, length, window).length >= ClipRangeFixed(start, length, window).length
  {
  }

  /** `paste_and_clip`'s classification (lines 77-83) from the clipped offsets and extent. */
  function Classify(srcX: nat, srcY: nat, width: nat, height: nat, otherWidth: nat, otherHeight: nat): ClippingInfo
  {
    if width == 0 || height == 0 then Hidden
    else if srcX != 0 || srcY != 0 || width < otherWidth || height < otherHeight then SomeClipping
    else NoClipping
  }

  /** The clipping information of pasting an `ow` by `oh` image at (x, y) into a `w` by `h`
   *  image. */
  function PasteInfo(x: I32, y: I32, ow: U32, oh: U32, w: U32, h: U32): ClippingInfo
    requires x > -TWO_POW_31 && y > -TWO_POW_31
    requires ow < TWO_POW_31 && oh < TWO_POW_31 && w < TWO_POW_31 && h < TWO_POW_31
  {
    var cx := ClipRangeFixed(x, ow, w);
    var cy := ClipRangeFixed(y, oh, h);
    Classify(cx.srcStart, cy.srcStart, cx.length, cy.length, ow, oh)
  }

  /** Hidden exactly when the pasted image misses the window along some axis, no clipping
   *  exactly when it lies wholly inside the window, some clipping otherwise. */
  lemma PasteInfoMeaning(x: I32, y: I32, ow: U32, oh: U32, w: U32, h: U32)
    requires x > -TWO_POW_31 && y > -TWO_POW_31
    requires ow < TWO_POW_31 && oh < TWO_POW_31 && w < TWO_POW_31 && h < TWO_POW_31
    ensures PasteInfo(x, y, ow, oh, w, h) == Hidden <==>
      Max(x, 0) >= Min(x + ow, w) || Max(y, 0) >= Min(y + oh, h)
    ensures PasteInfo(x, y, ow, oh, w, h) == NoClipping <==>
      0 <= x && x + ow <= w && 0 <= y && y + oh <= h && ow > 0 && oh > 0
  {
  }

  /** Every slice and every `region_data_range` call of `paste_and_clip` as written, with
   *  `clip_range` as written and the paste done before the hidden check, stays in range. */
  predicate AsWrittenPasteDefined(dst: View, other: View, x: I32, y: I32)
    requires x > -TWO_POW_31 && y > -TWO_POW_31
    requires other.width < TWO_POW_31 && other.height < TWO_POW_31
    requires dst.width < TWO_POW_31 && dst.height < TWO_POW_31
  {
    var cx := ClipRange(x, other.width, dst.width);
    var cy := ClipRange(y, other.height, dst.height);
    RegionFits(other, cx.srcStart, cy.srcStart, cx.length, cy.length)
      && RegionFits(dst, cx.start as nat, cy.start as nat, cx.length, cy.length)
  }

  /** Three pastes of a 3 by 5 glyph into a 12 by 8 image for which `paste_and_clip` as
   *  written panics though it should clip: two bits off the left edge (the source region
   *  is cut at column 2 but keeps width 3), wholly right of the image (the target region
   *  starts at column 50 of 12), and just below the image one column in (the empty target
   *  region starts at bit 97 of 96). */
  lemma AsWrittenPastePanics()
    ensures !AsWrittenPasteDefined(ImageView(12, 8), ImageView(3, 5), -2, 0)
    ensures !AsWrittenPasteDefined(ImageView(12, 8), ImageView(3, 5), 50, 0)
    ensures !AsWrittenPasteDefined(ImageView(12, 8), ImageView(3, 5), 1, 8)
  {
    assert ClipRange(-2, 3, 12) == Clip(0, 3, 2);
    assert ClipRange(50, 3, 12) == Clip(50, 0, 0);
    assert ClipRange(8, 5, 8) == Clip(8, 0, 0);
  }

  /** The region of `dst` that a paste at (x, y) overwrites, with the corrected clipping. */
  function PasteTarget(dst: View, other: View, x: I32, y: I32): View
    requires x > -TWO_POW_31 && y > -TWO_POW_31
    requires other.width < TWO_POW_31 && other.height < TWO_POW_31
    requires dst.width < TWO_POW_31 && dst.height < TWO_POW_31
  {
    var cx := ClipRangeFixed(x, other.width, dst.width);
    var cy := ClipRangeFixed(y, other.height, dst.height);
    if cx.length == 0 || cy.length == 0 then View(dst.offset, dst.frameWidth, 0, 0)
    else View(Cell(dst, cx.start as nat, cy.start as nat), dst.frameWidth, cx.length, cy.length)
  }

  /** `paste_and_clip`, corrected: the axes are clipped to the intersection with `dst`, and
   *  a hidden image is not pasted at all. Every pixel of `dst` that the shifted `other`
   *  covers gets the pixel of `other` below it, nothing outside the target region changes,
   *  and the result says how much of `other` is visible. */
  method PasteAndClip(buf: array<bool>, dst: View, src: seq<bool>, other: View, x: I32, y: I32)
    returns (info: ClippingInfo)
    requires ValidView(dst, buf.Length) && ValidView(other, |src|)
    requires x > -TWO_POW_31 && y > -TWO_POW_31
    requires other.width < TWO_POW_31 && other.height < TWO_POW_31
    requires dst.width < TWO_POW_31 && dst.height < TWO_POW_31
    modifies buf
    ensures info == PasteInfo(x, y, other.width, other.height, dst.width, dst.height)
    ensures forall px: nat, py: nat | px < dst.width && py < dst.height
        && InRange(px, x, other.width) && InRange(py, y, other.height) ::
      Pixel(buf[..], dst, px, py) == Pixel(src, other, px - x, py - y)
    ensures forall i | 0 <= i < buf.Length && !InView(i, PasteTarget(dst, other, x, y)) :: buf[i] == old(buf[i])
  {
    var cx := ClipRangeFixed(x, other.width, dst.width);
    var cy := ClipRangeFixed(y, other.height, dst.height);
    info := Classify(cx.srcStart, cy.srcStart, cx.length, cy.length, other.width, other.height);
    if cx.length == 0 || cy.length == 0 {
      // nothing of `other` is visible: nothing is pasted
      return;
    }
    var sx, sy := cx.srcStart, cy.srcStart;
    var tx, ty := cx.start as nat, cy.start as nat;
    var w, h := cx.length, cy.length;
    SubRectFits(other, sx, sy, w, h);
    var pasteRegion := Region(other, sx, sy, w, h);
    SubRectFits(dst, tx, ty, w, h);
    var target := Region(dst, tx, ty, w, h);
    assert target == PasteTarget(dst, other, x, y);
    CopyFrom(buf, target, src, pasteRegion);
    forall px: nat, py: nat | px < dst.width && py < dst.height
        && InRange(px, x, other.width) && InRange(py, y, other.height)
      ensures Pixel(buf[..], dst, px, py) == Pixel(src, other, px - x, py - y)
    {
      assert InRange(px, 0, dst.width) && InRange(py, 0, dst.height);
      assert InRange(px, tx, w) && InRange(py, ty, h);
      var xx: nat, yy: nat := px - tx, py - ty;
      assert Cell(target, xx, yy) == Cell(dst, px, py);
      assert Cell(pasteRegion, xx, yy) == Cell(other, px - x, py - y);
      assert Pixel(buf[..], target, xx, yy) == Pixel(src, pasteRegion, xx, yy);
    }
  }
}
