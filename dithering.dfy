/** `ProcessDithering`: error-diffusion dithering of a row-major pixel buffer
    in place, to the 4-bit palette, in raster order. */
module Dithering {
  import opened Pixels
  import opened Kernels

  // ----- raster coordinates of a flat offset -----

  /** The row `j` of offset `p = j * width + i`, `p / width` for p >= 0 (by
      repeated subtraction, so that the solver does not see a division). */
  function Row(p: int, width: int): (j: int)
    requires width > 0
    ensures j >= 0
    decreases p
  {
    if p < width then 0 else 1 + Row(p - width, width)
  }

  /** The column `i` of offset `p = j * width + i`, `p % width` for p >= 0. */
  function Col(p: int, width: int): (i: int)
    requires width > 0
    ensures p >= 0 ==> 0 <= i < width
    decreases p
  {
    if p < width then p else Col(p - width, width)
  }

  lemma {:induction false} Split(p: int, width: int)
    requires width > 0 && p >= 0
    ensures p == Row(p, width) * width + Col(p, width)
    ensures 0 <= Col(p, width) < width && Row(p, width) >= 0
    decreases p
  {
    if p >= width {
      Split(p - width, width);
      assert Row(p, width) * width == Row(p - width, width) * width + width;
    }
  }

  /** a * w >= w for a >= 1 and w >= 0. */
  lemma MulAtLeast(a: int, w: int)
    requires a >= 1 && w >= 0
    ensures a * w >= w
  {
    var b := a - 1;
    assert a * w == b * w + w;
    MulNonneg(b, w);
  }

  lemma {:induction false} MulNonneg(a: int, w: int)
    requires a >= 0 && w >= 0
    ensures a * w >= 0
  {
    if a > 0 {
      MulNonneg(a - 1, w);
      assert a * w == (a - 1) * w + w;
    }
  }

  /** Row and column are determined by quotient and remainder. */
  lemma {:induction false} DivModUnique(p: int, width: int, q: int, c: int)
    requires width > 0 && 0 <= c < width && q >= 0 && p == q * width + c
    ensures Row(p, width) == q && Col(p, width) == c
    decreases q
  {
    if q > 0 {
      MulAtLeast(q, width);
      assert p - width == (q - 1) * width + c;
      DivModUnique(p - width, width, q - 1, c);
    }
  }

  /** The offset `j * width + i` of an in-row column has row j and column i. */
  lemma RowCol(j: int, i: int, width: int)
    requires width > 0 && 0 <= i < width && j >= 0
    ensures Row(j * width + i, width) == j && Col(j * width + i, width) == i
  {
    DivModUnique(j * width + i, width, j, i);
  }

  /** A cell (i, j) of a width x height image has an offset inside the buffer. */
  lemma OffsetInBuffer(j: int, i: int, width: int, height: int)
    requires 0 <= i < width && 0 <= j < height
    ensures 0 <= j * width + i < width * height
  {
    MulNonneg(j, width);
    MulNonneg(height - 1 - j, width);
    assert width * height == j * width + (height - 1 - j) * width + width;
  }

  /** Every offset of the buffer lies in a row of the image. */
  lemma RowInImage(p: int, width: int, height: int)
    requires width > 0 && 0 <= p < width * height
    ensures 0 <= Row(p, width) < height
  {
    Split(p, width);
  }

  /** Pixel p comes before pixel (x, y) in raster order. */
  predicate Before(p: int, width: int, y: int, x: int)
  {
    width > 0 && p >= 0 && (Row(p, width) < y || (Row(p, width) == y && Col(p, width) < x))
  }

  /** Before is the order of offsets: p precedes (x, y) iff p < y * width + x. */
  lemma BeforeIsOffsetOrder(p: int, width: int, y: int, x: int)
    requires width > 0 && 0 <= x < width && p >= 0
    ensures Before(p, width, y, x) <==> p < y * width + x
  {
    Split(p, width);
    var j, i := Row(p, width), Col(p, width);
    if j < y {
      MulNonneg(y - j - 1, width);
      assert (y - j - 1) * width == y * width - j * width - width;
    } else if j > y {
      MulNonneg(j - y - 1, width);
      assert (j - y - 1) * width == j * width - y * width - width;
    }
  }

  // ----- one pixel: quantise, then spread the error -----

  /** The pixel p is reached by a tap of the kernel placed at (x, y): its row
      offset `coreY` and column `coreX` are inside the kernel. */
  predicate InKernel(k: Kernel, width: int, x: int, y: int, p: int)
  {
    width > 0 && p >= 0 &&
    0 <= Row(p, width) - y < |k| &&
    0 <= Col(p, width) - x + Anchor(k) < Width(k)
  }

  /** `core[coreY][coreX]` for the tap that reaches p. */
  function TapWeight(k: Kernel, width: int, x: int, y: int, p: int): real
    requires WellFormed(k) && InKernel(k, width, x, y, p)
  {
    k[Row(p, width) - y][Col(p, width) - x + Anchor(k)]
  }

  /** Cell p after every tap of the kernel at (x, y) has added its share of e. */
  function Diffused(k: Kernel, width: int, x: int, y: int, p: int, c: Color, e: Color): Color
    requires WellFormed(k)
  {
    if InKernel(k, width, x, y, p) then AddScaled(c, TapWeight(k, width, x, y, p), e) else c
  }

  /** One iteration of the x loop at pixel (x, y): the pixel is snapped to the
      palette and every in-bounds neighbour reached by the kernel gets its
      weight times the quantisation error. Taps outside the image have no cell
      and so are dropped. The pixels before (x, y) are left as they were, the
      pixel itself ends on the palette, and no alpha changes. */
  function DiffuseAt(s: seq<Color>, width: nat, height: nat, k: Kernel, x: int, y: int): (r: seq<Color>)
    requires WellFormed(k) && |s| == width * height
    requires 0 <= x < width && 0 <= y < height
    ensures |r| == |s|
  {
    OffsetInBuffer(y, x, width, height);
    var cur := y * width + x;
    var q := QuantizeColor(s[cur]);
    var e := ErrorOf(s[cur], q);
    seq(|s|, p requires 0 <= p < |s| => Diffused(k, width, x, y, p, if p == cur then q else s[p], e))
  }

  /** What one step promises: the pixels before (x, y) are left as they were,
      the pixel itself ends on the palette, and no alpha changes. */
  lemma DiffuseAtFacts(s: seq<Color>, width: nat, height: nat, k: Kernel, x: int, y: int)
    requires WellFormed(k) && |s| == width * height
    requires 0 <= x < width && 0 <= y < height
    ensures var r := DiffuseAt(s, width, height, k, x, y);
      (forall p :: 0 <= p < |s| ==> r[p].a == s[p].a) &&
      0 <= y * width + x < |s| && r[y * width + x] == QuantizeColor(s[y * width + x]) &&
      (forall p :: 0 <= p < |s| && Before(p, width, y, x) ==> r[p] == s[p])
  {
    OffsetInBuffer(y, x, width, height);
    var r := DiffuseAt(s, width, height, k, x, y);
    var cur := y * width + x;
    AnchorTapIsZero(k, width, x, y);
    assert r[cur] == QuantizeColor(s[cur]);
    forall p | 0 <= p < |s| && Before(p, width, y, x)
      ensures r[p] == s[p]
    {
      BeforeIsOffsetOrder(p, width, y, x);
      EarlierTapsAreZero(width, k, x, y);
    }
  }

  /** The tap that reaches the pixel itself has weight zero. */
  lemma AnchorTapIsZero(k: Kernel, width: int, x: int, y: int)
    requires WellFormed(k) && 0 <= x < width && y >= 0
    ensures InKernel(k, width, x, y, y * width + x)
    ensures TapWeight(k, width, x, y, y * width + x) == 0.0
  {
    RowCol(y, x, width);
  }

  /** Every tap that reaches a pixel before (x, y) has weight zero. */
  lemma EarlierTapsAreZero(width: int, k: Kernel, x: int, y: int)
    requires WellFormed(k) && 0 <= x < width
    ensures forall p :: Before(p, width, y, x) && InKernel(k, width, x, y, p) ==> TapWeight(k, width, x, y, p) == 0.0
  {
  }

  /** Where a tap of the kernel at (x, y) writes: a tap `(coreY, coreX)` whose
      cell (i, j) is inside the image writes offset `j * width + i`, which is in
      the buffer, lies on row j and column i (no wrap to a neighbouring row), and
      comes after (x, y) unless its weight is zero. */
  lemma TapTarget(width: nat, height: nat, k: Kernel, x: int, y: int, coreY: int, coreX: int)
    requires WellFormed(k) && 0 <= x < width && 0 <= y < height
    requires 0 <= coreY < |k| && 0 <= coreX < Width(k)
    ensures var j, i := y + coreY, x + coreX - Anchor(k);
      j < height && 0 <= i < width ==>
        0 <= j * width + i < width * height &&
        Row(j * width + i, width) == j && Col(j * width + i, width) == i &&
        (k[coreY][coreX] != 0.0 ==> j * width + i > y * width + x)
  {
    var j, i := y + coreY, x + coreX - Anchor(k);
    if j < height && 0 <= i < width {
      OffsetInBuffer(j, i, width, height);
      RowCol(j, i, width);
      RowCol(y, x, width);
      if k[coreY][coreX] != 0.0 {
        assert coreY > 0 || coreX > Anchor(k);
        BeforeIsOffsetOrder(j * width + i, width, y, x);
      }
    }
  }

  // ----- the tap loops of one pixel -----

  /** The tap that reaches p comes before tap (coreY, coreX) in the order of
      the coreY / coreX loops. */
  predicate TapBefore(k: Kernel, width: int, x: int, y: int, p: int, coreY: int, coreX: int)
  {
    InKernel(k, width, x, y, p) &&
    (Row(p, width) - y < coreY || (Row(p, width) - y == coreY && Col(p, width) - x + Anchor(k) < coreX))
  }

  /** Cell p once the taps before (coreY, coreX) have added their share of e. */
  function PartlyDiffused(k: Kernel, width: int, x: int, y: int, p: int, c: Color, e: Color, coreY: int, coreX: int): Color
    requires WellFormed(k)
  {
    if TapBefore(k, width, x, y, p, coreY, coreX) then AddScaled(c, TapWeight(k, width, x, y, p), e) else c
  }

  /** The buffer `pre` once the taps before (coreY, coreX) have run. */
  function Partly(pre: seq<Color>, k: Kernel, width: int, x: int, y: int, e: Color, coreY: int, coreX: int): (r: seq<Color>)
    requires WellFormed(k)
    ensures |r| == |pre|
  {
    seq(|pre|, p requires 0 <= p < |pre| => PartlyDiffused(k, width, x, y, p, pre[p], e, coreY, coreX))
  }

  /** Tap (coreY, coreX) with its cell (i, j) in the image adds its share to
      offset `j * width + i` and to no other cell. */
  lemma TapWritten(pre: seq<Color>, k: Kernel, width: nat, height: nat, x: int, y: int, e: Color, coreY: int, coreX: int)
    requires WellFormed(k) && |pre| == width * height && 0 <= x < width && 0 <= y < height
    requires 0 <= coreY < |k| && 0 <= coreX < Width(k)
    requires y + coreY < height && 0 <= x + coreX - Anchor(k) < width
    ensures var off := (y + coreY) * width + (x + coreX - Anchor(k));
      var before := Partly(pre, k, width, x, y, e, coreY, coreX);
      0 <= off < |pre| &&
      Partly(pre, k, width, x, y, e, coreY, coreX + 1) == before[off := AddScaled(before[off], k[coreY][coreX], e)]
  {
    var j, i := y + coreY, x + coreX - Anchor(k);
    TapTarget(width, height, k, x, y, coreY, coreX);
    var off := j * width + i;
    var before := Partly(pre, k, width, x, y, e, coreY, coreX);
    var after := Partly(pre, k, width, x, y, e, coreY, coreX + 1);
    forall p | 0 <= p < |pre|
      ensures after[p] == before[off := AddScaled(before[off], k[coreY][coreX], e)][p]
    {
      Split(p, width);
    }
  }

  /** A tap whose column falls outside the image writes nothing. */
  lemma TapDropped(pre: seq<Color>, k: Kernel, width: nat, x: int, y: int, e: Color, coreY: int, coreX: int)
    requires WellFormed(k) && width > 0
    requires !(0 <= x + coreX - Anchor(k) < width)
    ensures Partly(pre, k, width, x, y, e, coreY, coreX + 1) == Partly(pre, k, width, x, y, e, coreY, coreX)
  {
    var after := Partly(pre, k, width, x, y, e, coreY, coreX + 1);
    forall p | 0 <= p < |pre|
      ensures after[p] == Partly(pre, k, width, x, y, e, coreY, coreX)[p]
    {
      Split(p, width);
    }
  }

  /** A kernel row that falls below the image writes nothing. */
  lemma RowDropped(pre: seq<Color>, k: Kernel, width: nat, height: nat, x: int, y: int, e: Color, coreY: int)
    requires WellFormed(k) && width > 0 && |pre| == width * height && y + coreY >= height
    ensures Partly(pre, k, width, x, y, e, coreY + 1, 0) == Partly(pre, k, width, x, y, e, coreY, 0)
  {
    var after := Partly(pre, k, width, x, y, e, coreY + 1, 0);
    forall p | 0 <= p < |pre|
      ensures after[p] == Partly(pre, k, width, x, y, e, coreY, 0)[p]
    {
      RowInImage(p, width, height);
    }
  }

  /** After the last column of kernel row coreY comes the first of row coreY + 1. */
  lemma RowFinished(pre: seq<Color>, k: Kernel, width: nat, x: int, y: int, e: Color, coreY: int)
    requires WellFormed(k)
    ensures Partly(pre, k, width, x, y, e, coreY, Width(k)) == Partly(pre, k, width, x, y, e, coreY + 1, 0)
  {
    var after := Partly(pre, k, width, x, y, e, coreY + 1, 0);
    assert forall p | 0 <= p < |pre| :: after[p] == Partly(pre, k, width, x, y, e, coreY, Width(k))[p];
  }

  /** Before the first tap nothing has changed. */
  lemma PartlyStart(pre: seq<Color>, k: Kernel, width: int, x: int, y: int, e: Color)
    requires WellFormed(k)
    ensures Partly(pre, k, width, x, y, e, 0, 0) == pre
  {
    assert forall p | 0 <= p < |pre| :: Partly(pre, k, width, x, y, e, 0, 0)[p] == pre[p];
  }

  /** After the last tap the result is one step of the ditherer, from the
      buffer with the pixel quantised. */
  lemma PartlyEnds(s: seq<Color>, k: Kernel, width: nat, height: nat, x: int, y: int)
    requires WellFormed(k) && |s| == width * height && 0 <= x < width && 0 <= y < height
    ensures var cur := y * width + x;
      0 <= cur < |s| &&
      var pre := s[cur := QuantizeColor(s[cur])];
      var e := ErrorOf(s[cur], QuantizeColor(s[cur]));
      Partly(pre, k, width, x, y, e, |k|, 0) == DiffuseAt(s, width, height, k, x, y)
  {
    OffsetInBuffer(y, x, width, height);
    var cur := y * width + x;
    var pre := s[cur := QuantizeColor(s[cur])];
    var e := ErrorOf(s[cur], QuantizeColor(s[cur]));
    assert forall p | 0 <= p < |pre| :: Partly(pre, k, width, x, y, e, |k|, 0)[p] == DiffuseAt(s, width, height, k, x, y)[p];
  }

  /** The body of the x loop at pixel (x, y): quantise the pixel, take the
      error, let every tap add its share. */
  method DiffusePixel(colData: array<Color>, width: nat, height: nat, core: Kernel, x: nat, y: nat)
    requires WellFormed(core) && colData.Length == width * height
    requires x < width && y < height
    modifies colData
    ensures colData[..] == DiffuseAt(old(colData[..]), width, height, core, x, y)
  {
    PartlyEnds(colData[..], core, width, height, x, y);
    var offset := y * width + x;
    var r := colData[offset].r;
    var g := colData[offset].g;
    var b := colData[offset].b;

    // clamping to the 4-bit palette
    colData[offset] := QuantizeColor(colData[offset]);

    // the quantisation errors
    r := r - colData[offset].r;
    g := g - colData[offset].g;
    b := b - colData[offset].b;

    assert colData[..] == old(colData[..])[offset := QuantizeColor(old(colData[offset]))];
    SpreadError(colData, width, height, core, x, y, Color(r, g, b, 0.0));
  }

  /** The coreY / coreX loops at pixel (x, y): every tap whose cell is in the
      image adds its weight times the error `err` to that cell. */
  method SpreadError(colData: array<Color>, width: nat, height: nat, core: Kernel, x: nat, y: nat, err: Color)
    requires WellFormed(core) && colData.Length == width * height
    requires x < width && y < height
    modifies colData
    ensures colData[..] == Partly(old(colData[..]), core, width, x, y, err, |core|, 0)
  {
    var coreHgt := |core|;
    var coreWth := |core[0]|;
    var coreWthOffset := (coreWth - 1) / 2;
    ghost var pre := colData[..];
    PartlyStart(pre, core, width, x, y, err);
    var coreY := 0;
    while coreY < coreHgt
      invariant 0 <= coreY <= coreHgt
      invariant colData[..] == Partly(pre, core, width, x, y, err, coreY, 0)
    {
      var j := y + coreY;
      if j < height {
        var coreX := 0;
        while coreX < coreWth
          invariant 0 <= coreX <= coreWth
          invariant colData[..] == Partly(pre, core, width, x, y, err, coreY, coreX)
        {
          var i := x + coreX - coreWthOffset;
          if i >= 0 && i < width {
            TapWritten(pre, core, width, height, x, y, err, coreY, coreX);
            var offset := j * width + i;
            // the tap's share of the error goes to r, g and b of its cell
            colData[offset] := AddScaled(colData[offset], core[coreY][coreX], err);
          } else {
            TapDropped(pre, core, width, x, y, err, coreY, coreX);
          }
          coreX := coreX + 1;
        }
        RowFinished(pre, core, width, x, y, err, coreY);
      } else {
        RowDropped(pre, core, width, height, x, y, err, coreY);
      }
      coreY := coreY + 1;
    }
  }

  /** `ProcessDithering`: nothing for "none"; otherwise the kernel of the
      table and the pixels in raster order, rows y, columns x. */
  method ProcessDithering(colData: array<Color>, width: nat, height: nat, ditheringType: DitheringType)
    requires colData.Length == width * height
    modifies colData
    ensures colData[..] == Dither(old(colData[..]), width, height, ditheringType)
  {
    if ditheringType.None? {
      return;
    }
    var core := KernelOf(ditheringType);
    KernelsWellFormed(ditheringType);
    ghost var s := colData[..];
    var y := 0;
    while y < height
      invariant 0 <= y <= height
      invariant colData[..] == DitheredBefore(s, width, height, core, y, 0)
    {
      DitherRow(colData, width, height, core, y, s);
      y := y + 1;
    }
  }

  /** The x loop of `ProcessDithering` for row y. */
  method DitherRow(colData: array<Color>, width: nat, height: nat, core: Kernel, y: nat, ghost s: seq<Color>)
    requires WellFormed(core) && colData.Length == width * height && |s| == width * height && y < height
    requires colData[..] == DitheredBefore(s, width, height, core, y, 0)
    modifies colData
    ensures colData[..] == DitheredBefore(s, width, height, core, y + 1, 0)
  {
    var x := 0;
    while x < width
      invariant 0 <= x <= width
      invariant colData[..] == DitheredBefore(s, width, height, core, y, x)
    {
      ghost var t := colData[..];
      DiffusePixel(colData, width, height, core, x, y);
      assert DitheredBefore(s, width, height, core, y, x + 1) == DiffuseAt(t, width, height, core, x, y);
      x := x + 1;
    }
    assert DitheredBefore(s, width, height, core, y + 1, 0) == DitheredBefore(s, width, height, core, y, width);
  }

  // ----- the whole buffer -----

  /** The buffer after the pixels before (x, y) have been processed in raster
      order, each by one step of the ditherer. */
  function DitheredBefore(s: seq<Color>, width: nat, height: nat, k: Kernel, y: nat, x: nat): (r: seq<Color>)
    requires WellFormed(k) && |s| == width * height
    requires y <= height && x <= width && (y < height || x == 0)
    ensures |r| == |s|
    decreases y, x
  {
    if x == 0 then
      if y == 0 then s
      else DitheredBefore(s, width, height, k, y - 1, width)
    else
      DiffuseAt(DitheredBefore(s, width, height, k, y, x - 1), width, height, k, x - 1, y)
  }

  /** Dithering never changes alpha. */
  lemma {:induction false} DitheredBeforeKeepsAlpha(s: seq<Color>, width: nat, height: nat, k: Kernel, y: nat, x: nat)
    requires WellFormed(k) && |s| == width * height
    requires y <= height && x <= width && (y < height || x == 0)
    ensures var r := DitheredBefore(s, width, height, k, y, x);
      forall p :: 0 <= p < |s| ==> r[p].a == s[p].a
    decreases y, x
  {
    if x == 0 {
      if y > 0 {
        DitheredBeforeKeepsAlpha(s, width, height, k, y - 1, width);
      }
    } else {
      var t := DitheredBefore(s, width, height, k, y, x - 1);
      DitheredBeforeKeepsAlpha(s, width, height, k, y, x - 1);
      assert DiffuseAt(t, width, height, k, x - 1, y) == DitheredBefore(s, width, height, k, y, x);
      DiffuseAtFacts(t, width, height, k, x - 1, y);
    }
  }

  /** The pixels before (x, y) are on the palette. */
  lemma {:induction false} DitheredBeforeOnGrid(s: seq<Color>, width: nat, height: nat, k: Kernel, y: nat, x: nat)
    requires WellFormed(k) && |s| == width * height
    requires y <= height && x <= width && (y < height || x == 0)
    ensures var r := DitheredBefore(s, width, height, k, y, x);
      forall p :: 0 <= p < |s| && Before(p, width, y, x) ==> OnGridColor(r[p])
    decreases y, x
  {
    if x == 0 {
      if y > 0 {
        DitheredBeforeOnGrid(s, width, height, k, y - 1, width);
        RowDone(DitheredBefore(s, width, height, k, y - 1, width), width, y - 1);
      }
    } else {
      var t := DitheredBefore(s, width, height, k, y, x - 1);
      DitheredBeforeOnGrid(s, width, height, k, y, x - 1);
      var r := DiffuseAt(t, width, height, k, x - 1, y);
      assert r == DitheredBefore(s, width, height, k, y, x);
      DiffuseAtFacts(t, width, height, k, x - 1, y);
      GridStep(t, r, width, y, x - 1);
    }
  }

  /** Processing pixel (x, y) extends the on-palette prefix by that pixel. */
  lemma GridStep(t: seq<Color>, r: seq<Color>, width: int, y: int, x: int)
    requires 0 <= x < width && |r| == |t|
    requires forall p :: 0 <= p < |t| && Before(p, width, y, x) ==> OnGridColor(t[p])
    requires forall p :: 0 <= p < |t| && Before(p, width, y, x) ==> r[p] == t[p]
    requires 0 <= y * width + x < |r| && OnGridColor(r[y * width + x])
    ensures forall p :: 0 <= p < |r| && Before(p, width, y, x + 1) ==> OnGridColor(r[p])
  {
    StepDone(width, y, x);
  }

  /** The pixels before (x + 1, y) are those before (x, y) and (x, y) itself. */
  lemma StepDone(width: int, y: int, x: int)
    requires 0 <= x < width
    ensures forall p :: Before(p, width, y, x + 1) ==> Before(p, width, y, x) || p == y * width + x
  {
    forall p | Before(p, width, y, x + 1)
      ensures Before(p, width, y, x) || p == y * width + x
    {
      Split(p, width);
    }
  }

  /** The pixels before (0, y + 1) are those before (width, y): once row y is
      done, the on-palette prefix is every row up to y. */
  lemma RowDone(r: seq<Color>, width: int, y: int)
    requires forall p :: 0 <= p < |r| && Before(p, width, y, width) ==> OnGridColor(r[p])
    ensures forall p :: 0 <= p < |r| && Before(p, width, y + 1, 0) ==> OnGridColor(r[p])
  {
    forall p | 0 <= p < |r| && Before(p, width, y + 1, 0)
      ensures OnGridColor(r[p])
    {
      Split(p, width);
      assert Before(p, width, y, width);
    }
  }

  /** `ProcessDithering` as a function: identity for "none", otherwise every
      pixel processed in raster order with the selected kernel. */
  function Dither(s: seq<Color>, width: nat, height: nat, t: DitheringType): (r: seq<Color>)
    requires |s| == width * height
    ensures |r| == |s|
    ensures forall p :: 0 <= p < |s| ==> r[p].a == s[p].a
    ensures t.None? ==> r == s
    ensures !t.None? ==> forall p :: 0 <= p < |r| ==> OnGridColor(r[p])
  {
    if t.None? then s
    else
      KernelsWellFormed(t);
      AllBefore(|s|, width, height);
      DitheredBeforeKeepsAlpha(s, width, height, KernelOf(t), height, 0);
      DitheredBeforeOnGrid(s, width, height, KernelOf(t), height, 0);
      DitheredBefore(s, width, height, KernelOf(t), height, 0)
  }

  /** Once all rows are done, every pixel is before (0, height). */
  lemma AllBefore(n: int, width: nat, height: nat)
    requires n == width * height
    ensures forall p :: 0 <= p < n ==> Before(p, width, height, 0)
  {
    forall p | 0 <= p < n
      ensures Before(p, width, height, 0)
    {
      RowInImage(p, width, height);
    }
  }

  // ----- channel independence -----

  /** Component k (r, g or b) is zero in every pixel. */
  predicate ChannelZero(s: seq<Color>, k: nat)
    requires k < 3
  {
    forall p :: 0 <= p < |s| ==> Channel(s[p], k) == 0.0
  }

  /** Snapping zero gives zero, so the error in that component is zero and
      every tap adds nothing to it. */
  lemma DiffuseAtKeepsZero(s: seq<Color>, width: nat, height: nat, k: Kernel, x: int, y: int, c: nat)
    requires WellFormed(k) && |s| == width * height
    requires 0 <= x < width && 0 <= y < height && c < 3
    requires ChannelZero(s, c)
    ensures ChannelZero(DiffuseAt(s, width, height, k, x, y), c)
  {
    OffsetInBuffer(y, x, width, height);
    var r := DiffuseAt(s, width, height, k, x, y);
    var cur := y * width + x;
    var q := QuantizeColor(s[cur]);
    var e := ErrorOf(s[cur], q);
    assert OnGrid(0.0) by {
      LevelOnGrid(0);
    }
    assert Channel(q, c) == 0.0 && Channel(e, c) == 0.0 by {
      assert Channel(s[cur], c) == 0.0;
    }
    forall p | 0 <= p < |s|
      ensures Channel(r[p], c) == 0.0
    {
      var before := if p == cur then q else s[p];
      assert Channel(before, c) == 0.0;
      assert r[p] == Diffused(k, width, x, y, p, before, e);
    }
  }

  lemma {:induction false} DitheredBeforeKeepsZero(s: seq<Color>, width: nat, height: nat, k: Kernel, y: nat, x: nat, c: nat)
    requires WellFormed(k) && |s| == width * height
    requires y <= height && x <= width && (y < height || x == 0) && c < 3
    requires ChannelZero(s, c)
    ensures ChannelZero(DitheredBefore(s, width, height, k, y, x), c)
    decreases y, x
  {
    if x == 0 {
      if y > 0 {
        DitheredBeforeKeepsZero(s, width, height, k, y - 1, width, c);
      }
    } else {
      var t := DitheredBefore(s, width, height, k, y, x - 1);
      DitheredBeforeKeepsZero(s, width, height, k, y, x - 1, c);
      assert DiffuseAt(t, width, height, k, x - 1, y) == DitheredBefore(s, width, height, k, y, x);
      DiffuseAtKeepsZero(t, width, height, k, x - 1, y, c);
    }
  }

  /** A component that is zero everywhere stays zero through the ditherer:
      the components are dithered independently, so a channel of the
      luminance image whose source is absent stays black. */
  lemma DitherKeepsZero(s: seq<Color>, width: nat, height: nat, t: DitheringType, c: nat)
    requires |s| == width * height && c < 3
    requires ChannelZero(s, c)
    ensures ChannelZero(Dither(s, width, height, t), c)
  {
    if !t.None? {
      KernelsWellFormed(t);
      DitheredBeforeKeepsZero(s, width, height, KernelOf(t), height, 0, c);
    }
  }

  /** Two buffers of the same length that agree on component k (r, g or b). */
  predicate AgreeOn(s1: seq<Color>, s2: seq<Color>, k: nat)
    requires k < 3
  {
    |s1| == |s2| && forall p :: 0 <= p < |s1| ==> Channel(s1[p], k) == Channel(s2[p], k)
  }

  /** The snap of a component depends on that component only. */
  lemma QuantizeChannel(c1: Color, c2: Color, k: nat)
    requires k < 3 && Channel(c1, k) == Channel(c2, k)
    ensures Channel(QuantizeColor(c1), k) == Channel(QuantizeColor(c2), k)
    ensures Channel(ErrorOf(c1, QuantizeColor(c1)), k) == Channel(ErrorOf(c2, QuantizeColor(c2)), k)
  {
  }

  /** One step keeps two buffers that agree on component k in agreement. */
  lemma DiffuseAtAgrees(s1: seq<Color>, s2: seq<Color>, width: nat, height: nat, k: Kernel, x: int, y: int, c: nat)
    requires WellFormed(k) && |s1| == width * height && c < 3
    requires 0 <= x < width && 0 <= y < height
    requires AgreeOn(s1, s2, c)
    ensures AgreeOn(DiffuseAt(s1, width, height, k, x, y), DiffuseAt(s2, width, height, k, x, y), c)
  {
    OffsetInBuffer(y, x, width, height);
    var r1, r2 := DiffuseAt(s1, width, height, k, x, y), DiffuseAt(s2, width, height, k, x, y);
    var cur := y * width + x;
    var q1, q2 := QuantizeColor(s1[cur]), QuantizeColor(s2[cur]);
    var e1, e2 := ErrorOf(s1[cur], q1), ErrorOf(s2[cur], q2);
    QuantizeChannel(s1[cur], s2[cur], c);
    forall p | 0 <= p < |s1|
      ensures Channel(r1[p], c) == Channel(r2[p], c)
    {
      DiffusedChannel(k, width, x, y, p, if p == cur then q1 else s1[p], if p == cur then q2 else s2[p], e1, e2, c);
    }
  }

  /** A cell's component k after the taps depends on component k of the cell
      and of the error only. */
  lemma DiffusedChannel(k: Kernel, width: int, x: int, y: int, p: int, b1: Color, b2: Color, e1: Color, e2: Color, c: nat)
    requires WellFormed(k) && c < 3
    requires Channel(b1, c) == Channel(b2, c) && Channel(e1, c) == Channel(e2, c)
    ensures Channel(Diffused(k, width, x, y, p, b1, e1), c) == Channel(Diffused(k, width, x, y, p, b2, e2), c)
  {
    if InKernel(k, width, x, y, p) {
      var w := TapWeight(k, width, x, y, p);
      assert Channel(AddScaled(b1, w, e1), c) == Channel(b1, c) + w * Channel(e1, c);
      assert Channel(AddScaled(b2, w, e2), c) == Channel(b2, c) + w * Channel(e2, c);
    }
  }

  lemma {:induction false} DitheredBeforeAgrees(s1: seq<Color>, s2: seq<Color>, width: nat, height: nat, k: Kernel,
                                                y: nat, x: nat, c: nat)
    requires WellFormed(k) && |s1| == width * height
    requires y <= height && x <= width && (y < height || x == 0) && c < 3
    requires AgreeOn(s1, s2, c)
    ensures AgreeOn(DitheredBefore(s1, width, height, k, y, x), DitheredBefore(s2, width, height, k, y, x), c)
    decreases y, x
  {
    if x == 0 {
      if y > 0 {
        DitheredBeforeAgrees(s1, s2, width, height, k, y - 1, width, c);
      }
    } else {
      DitheredBeforeAgrees(s1, s2, width, height, k, y, x - 1, c);
      AgreesStep(s1, s2, width, height, k, y, x, c);
    }
  }

  /** The step before (x, y) keeps the agreement reached before it. */
  lemma AgreesStep(s1: seq<Color>, s2: seq<Color>, width: nat, height: nat, k: Kernel, y: nat, x: nat, c: nat)
    requires WellFormed(k) && |s1| == width * height && |s2| == width * height && c < 3
    requires 0 < x <= width && y < height
    requires AgreeOn(DitheredBefore(s1, width, height, k, y, x - 1), DitheredBefore(s2, width, height, k, y, x - 1), c)
    ensures AgreeOn(DitheredBefore(s1, width, height, k, y, x), DitheredBefore(s2, width, height, k, y, x), c)
  {
    var t1 := DitheredBefore(s1, width, height, k, y, x - 1);
    var t2 := DitheredBefore(s2, width, height, k, y, x - 1);
    var r1 := DitheredBefore(s1, width, height, k, y, x);
    var r2 := DitheredBefore(s2, width, height, k, y, x);
    assert r1 == DiffuseAt(t1, width, height, k, x - 1, y);
    assert r2 == DiffuseAt(t2, width, height, k, x - 1, y);
    DiffuseAtAgrees(t1, t2, width, height, k, x - 1, y, c);
    forall p | 0 <= p < |r1|
      ensures Channel(r1[p], c) == Channel(r2[p], c)
    {
      assert r1[p] == DiffuseAt(t1, width, height, k, x - 1, y)[p];
      assert r2[p] == DiffuseAt(t2, width, height, k, x - 1, y)[p];
    }
  }

  /** The components are dithered independently: component k of the result
      depends on component k of the input only. */
  lemma DitherAgrees(s1: seq<Color>, s2: seq<Color>, width: nat, height: nat, t: DitheringType, c: nat)
    requires |s1| == width * height && c < 3
    requires AgreeOn(s1, s2, c)
    ensures AgreeOn(Dither(s1, width, height, t), Dither(s2, width, height, t), c)
  {
    if !t.None? {
      KernelsWellFormed(t);
      DitheredBeforeAgrees(s1, s2, width, height, KernelOf(t), height, 0, c);
    }
  }

  // ----- a visited pixel is final -----

  /** Once pixel (i, j) has been visited, later steps leave it alone: its
      value after the steps before (x, y) is its value right after its own step. */
  lemma {:induction false} SnapSettled(s: seq<Color>, width: nat, height: nat, k: Kernel, y: nat, x: nat, j: nat, i: nat)
    requires WellFormed(k) && |s| == width * height
    requires y <= height && x <= width && (y < height || x == 0)
    requires i < width && (j < y || (j == y && i < x))
    ensures j < height && 0 <= j * width + i < |s|
    ensures DitheredBefore(s, width, height, k, y, x)[j * width + i] ==
            DitheredBefore(s, width, height, k, j, i + 1)[j * width + i]
    decreases y, x, 1
  {
    OffsetInBuffer(j, i, width, height);
    if x == 0 {
      SettledRow(s, width, height, k, y, j, i);
    } else if !(j == y && i == x - 1) {
      SettledStep(s, width, height, k, y, x, j, i);
    }
  }

  lemma {:induction false} SettledRow(s: seq<Color>, width: nat, height: nat, k: Kernel, y: nat, j: nat, i: nat)
    requires WellFormed(k) && |s| == width * height
    requires y <= height && i < width && j < y
    ensures j < height && 0 <= j * width + i < |s|
    ensures DitheredBefore(s, width, height, k, y, 0)[j * width + i] ==
            DitheredBefore(s, width, height, k, j, i + 1)[j * width + i]
    decreases y, 0, 0
  {
    OffsetInBuffer(j, i, width, height);
    assert DitheredBefore(s, width, height, k, y, 0) == DitheredBefore(s, width, height, k, y - 1, width);
    SnapSettled(s, width, height, k, y - 1, width, j, i);
  }

  lemma {:induction false} SettledStep(s: seq<Color>, width: nat, height: nat, k: Kernel, y: nat, x: nat, j: nat, i: nat)
    requires WellFormed(k) && |s| == width * height
    requires 0 < x <= width && y < height
    requires i < width && (j < y || (j == y && i < x - 1))
    ensures 0 <= j * width + i < |s|
    ensures DitheredBefore(s, width, height, k, y, x)[j * width + i] ==
            DitheredBefore(s, width, height, k, j, i + 1)[j * width + i]
    decreases y, x, 0
  {
    EarlierCellKept(s, width, height, k, y, x, j, i);
    SnapSettled(s, width, height, k, y, x - 1, j, i);
  }

  /** The step before (x, y) leaves the earlier pixel at column i of row j alone. */
  lemma EarlierCellKept(s: seq<Color>, width: nat, height: nat, k: Kernel, y: nat, x: nat, j: nat, i: nat)
    requires WellFormed(k) && |s| == width * height
    requires 0 < x <= width && y < height
    requires i < width && (j < y || (j == y && i < x - 1))
    ensures 0 <= j * width + i < |s|
    ensures DitheredBefore(s, width, height, k, y, x)[j * width + i] == DitheredBefore(s, width, height, k, y, x - 1)[j * width + i]
  {
    OffsetInBuffer(j, i, width, height);
    RowCol(j, i, width);
    StepKeepsEarlier(s, width, height, k, y, x - 1, j * width + i);
  }

  /** The step at (x, y) leaves a pixel before it alone. */
  lemma StepKeepsEarlier(s: seq<Color>, width: nat, height: nat, k: Kernel, y: nat, x: nat, p: int)
    requires WellFormed(k) && |s| == width * height
    requires x < width && y < height
    requires 0 <= p < |s| && Before(p, width, y, x)
    ensures DitheredBefore(s, width, height, k, y, x + 1)[p] == DitheredBefore(s, width, height, k, y, x)[p]
  {
    DiffuseAtFacts(DitheredBefore(s, width, height, k, y, x), width, height, k, x, y);
  }

  /** Every pixel of the result is the palette snap of the value it held when
      the raster scan reached it: the error it had received from the pixels
      before it, and nothing after. */
  lemma DitherIsSnapOnVisit(s: seq<Color>, width: nat, height: nat, t: DitheringType, j: nat, i: nat)
    requires |s| == width * height && !t.None? && j < height && i < width
    ensures 0 <= j * width + i < |s|
    ensures WellFormed(KernelOf(t)) && Dither(s, width, height, t)[j * width + i] ==
            QuantizeColor(DitheredBefore(s, width, height, KernelOf(t), j, i)[j * width + i])
  {
    KernelsWellFormed(t);
    var k := KernelOf(t);
    OffsetInBuffer(j, i, width, height);
    assert Dither(s, width, height, t) == DitheredBefore(s, width, height, k, height, 0);
    SnapSettled(s, width, height, k, height, 0, j, i);
    var before := DitheredBefore(s, width, height, k, j, i);
    assert DitheredBefore(s, width, height, k, j, i + 1) == DiffuseAt(before, width, height, k, i, j);
    DiffuseAtFacts(before, width, height, k, i, j);
  }
}
