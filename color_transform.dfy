/** The per-pixel colour transforms of `Process`: a luminance value and a
    packed colour-difference pixel, in one of two variants (`PackedColorType`). */
module ColorTransform {
  import opened Pixels

  datatype PackedColorType = YCoCg | YCbCr

  /** `gs`: the luminance of one pixel. YCoCg uses the weights 1/4, 1/2, 1/4;
      YCbCr the luma weights of item 3.2 of ITU-R BT.709. */
  function Luminance(t: PackedColorType, c: Color): (l: real)
    ensures c.r == c.g == c.b ==> l == c.r
    ensures InUnitRange(c) ==> 0.0 <= l <= 1.0
  {
    match t
    case YCoCg => 0.25 * c.r + 0.5 * c.g + 0.25 * c.b
    case YCbCr => 0.2126 * c.r + 0.7152 * c.g + 0.0722 * c.b
  }

  /** The new value of `colData[i]`. `new Color(r, g, b)` gives alpha 1. YCoCg:
      (Co, Cg, 1 - Co). YCbCr: (Cb, Cr) as in clause 7 of ITU-T T.871, and a
      third channel with its own, non-canonical weights. */
  function Packed(t: PackedColorType, c: Color): (d: Color)
    ensures d.a == 1.0
    ensures t.YCoCg? ==> d.b == 1.0 - d.r
  {
    match t
    case YCoCg =>
      var co := 0.5 * c.r - 0.5 * c.b + 0.5;
      Color(co, -0.25 * c.r + 0.5 * c.g - 0.25 * c.b + 0.5, 1.0 - co, 1.0)
    case YCbCr =>
      Color(-0.168736 * c.r - 0.331264 * c.g + 0.5 * c.b + 0.5,
            0.5 * c.r - 0.418688 * c.g - 0.081312 * c.b + 0.5,
            -0.2989548 * c.r + 0.412898048 * c.g - 0.113943232 * c.b + 0.5,
            1.0)
  }

  /** Rebuilding r, g and b from luminance, Co and Cg: the inverse of the
      YCoCg lifting. */
  function FromYCoCg(y: real, co: real, cg: real): Color
  {
    var dco, dcg := co - 0.5, cg - 0.5;
    Color(y + dco - dcg, y + dcg, y - dco - dcg, 1.0)
  }

  /** YCoCg loses nothing: (Y, Co, Cg) gives back the r, g and b it came from. */
  lemma YCoCgRoundTrip(c: Color)
    ensures var d := Packed(YCoCg, c);
      var back := FromYCoCg(Luminance(YCoCg, c), d.r, d.g);
      back.r == c.r && back.g == c.g && back.b == c.b
  {
  }

  /** YCbCr loses nothing either: two pixels with the same Y, Cb and Cr have
      the same r, g and b. */
  lemma YCbCrInjective(c1: Color, c2: Color)
    requires Luminance(YCbCr, c1) == Luminance(YCbCr, c2)
    requires Packed(YCbCr, c1).r == Packed(YCbCr, c2).r
    requires Packed(YCbCr, c1).g == Packed(YCbCr, c2).g
    ensures c1.r == c2.r && c1.g == c2.g && c1.b == c2.b
  {
  }

  /** Both weight triples sum to 1, so a grey pixel has its own level as
      luminance; its chroma is exactly the 0.5 bias. The YCbCr third channel
      weights sum to 0.000000016, not 0, so it is only nearly 0.5. */
  lemma GreyPixel(t: PackedColorType, v: real, a: real)
    ensures Luminance(t, Color(v, v, v, a)) == v
    ensures Packed(t, Color(v, v, v, a)).r == 0.5 && Packed(t, Color(v, v, v, a)).g == 0.5
    ensures Packed(t, Color(v, v, v, a)).b == if t.YCoCg? then 0.5 else 0.5 + 0.000000016 * v
  {
  }

  /** Adding the same amount to r, g and b moves the luminance by that amount
      and leaves the colour differences as they were. */
  lemma GreyShift(t: PackedColorType, c: Color, d: real)
    ensures var c' := c.(r := c.r + d, g := c.g + d, b := c.b + d);
      Luminance(t, c') == Luminance(t, c) + d &&
      Packed(t, c').r == Packed(t, c).r && Packed(t, c').g == Packed(t, c).g &&
      Packed(t, c').b == Packed(t, c).b + (if t.YCoCg? then 0.0 else 0.000000016 * d)
  {
  }

  predicate InUnitRange(c: Color)
  {
    0.0 <= c.r <= 1.0 && 0.0 <= c.g <= 1.0 && 0.0 <= c.b <= 1.0
  }

  /** No output needs the clamping done when the texture is stored: a pixel in
      [0, 1] has luminance and packed colour in [0, 1]. */
  lemma OutputsInRange(t: PackedColorType, c: Color)
    requires InUnitRange(c)
    ensures 0.0 <= Luminance(t, c) <= 1.0
    ensures InUnitRange(Packed(t, c))
  {
  }
}
