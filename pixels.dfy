/** A pixel of a Unity `Color[]` buffer and the 4-bit palette quantisation
    that the ditherer applies to each of its r, g and b components.
    Floats are modelled as reals. */
module Pixels {

  /** Unity's `Color` struct: four components. The default value (an entry of
      a freshly allocated `Color[]`) has all four at zero. */
  datatype Color = Color(r: real, g: real, b: real, a: real)

  const Black: Color := Color(0.0, 0.0, 0.0, 0.0)

  /** The indexer `color[k]`: 0 is r, 1 is g, 2 is b, 3 is a. */
  function Channel(c: Color, k: nat): real
    requires k < 4
  {
    if k == 0 then c.r else if k == 1 then c.g else if k == 2 then c.b else c.a
  }

  /** The indexer assignment `color[k] = v`. */
  function SetChannel(c: Color, k: nat, v: real): (d: Color)
    requires k < 4
    ensures Channel(d, k) == v
    ensures forall m :: 0 <= m < 4 && m != k ==> Channel(d, m) == Channel(c, m)
  {
    if k == 0 then c.(r := v) else if k == 1 then c.(g := v) else if k == 2 then c.(b := v) else c.(a := v)
  }

  /** `Mathf.RoundToInt`: the nearest integer, ties going to the even one. */
  function RoundToInt(x: real): (n: int)
    ensures x - 0.5 <= n as real <= x + 0.5
    ensures (n as real - x == 0.5 || x - n as real == 0.5) ==> n % 2 == 0
  {
    var f := x.Floor;
    var frac := x - f as real;
    if frac < 0.5 then f
    else if frac > 0.5 then f + 1
    else if f % 2 == 0 then f
    else f + 1
  }

  /** Round-to-nearest-even determines its result: any integer within one half
      of x that is even on a tie is RoundToInt(x). */
  lemma RoundToIntUnique(x: real, m: int)
    requires x - 0.5 <= m as real <= x + 0.5
    requires (m as real - x == 0.5 || x - m as real == 0.5) ==> m % 2 == 0
    ensures m == RoundToInt(x)
  {
  }

  /** `Mathf.Clamp01`. */
  function Clamp01(z: real): (q: real)
    ensures 0.0 <= q <= 1.0
    ensures 0.0 <= z <= 1.0 ==> q == z
    ensures z < 0.0 ==> q == 0.0
    ensures z > 1.0 ==> q == 1.0
  {
    if z < 0.0 then 0.0 else if z > 1.0 then 1.0 else z
  }

  /** The constant `inv16`. */
  const Inv16: real := 1.0 / 16.0

  /** A value of the 4-bit palette: k/16 for an integer 0 <= k <= 16. */
  predicate OnGrid(v: real)
  {
    var k := (v * 16.0).Floor;
    0 <= k <= 16 && v == k as real / 16.0
  }

  /** Every k/16 with 0 <= k <= 16 is on the grid (OnGrid itself says that a
      value on the grid is one of these). */
  lemma LevelOnGrid(k: int)
    requires 0 <= k <= 16
    ensures OnGrid(k as real / 16.0)
  {
    assert k as real / 16.0 * 16.0 == k as real;
  }

  /** `Mathf.Clamp01(Mathf.RoundToInt(v * 16) * inv16)`: snap to the nearest
      palette value, clamped to [0, 1]. The result is on the grid; a value in
      [0, 1] moves by at most 1/32; a value already on the grid is kept; a
      value at or below 0 gives 0 and one at or above 1 gives 1. */
  function Quantize(v: real): (q: real)
    ensures OnGrid(q)
    ensures 0.0 <= v <= 1.0 ==> -1.0 / 32.0 <= q - v <= 1.0 / 32.0
    ensures OnGrid(v) ==> q == v
    ensures v <= 0.0 ==> q == 0.0
    ensures v >= 1.0 ==> q == 1.0
  {
    var n := RoundToInt(v * 16.0);
    var z := n as real * Inv16;
    assert z * 16.0 == n as real;
    RoundOnGrid(v);
    Clamp01(z)
  }

  /** A palette value times 16 is an integer, which rounding keeps. */
  lemma RoundOnGrid(v: real)
    ensures OnGrid(v) ==> RoundToInt(v * 16.0) == (v * 16.0).Floor
  {
    if OnGrid(v) {
      RoundToIntUnique(v * 16.0, (v * 16.0).Floor);
    }
  }

  /** Quantising twice is quantising once. */
  lemma QuantizeIdempotent(v: real)
    ensures Quantize(Quantize(v)) == Quantize(v)
  {
  }

  /** The palette snap of one pixel: r, g and b are quantised, alpha is kept. */
  function QuantizeColor(c: Color): (q: Color)
    ensures OnGridColor(q) && q.a == c.a
  {
    c.(r := Quantize(c.r), g := Quantize(c.g), b := Quantize(c.b))
  }

  predicate OnGridColor(c: Color)
  {
    OnGrid(c.r) && OnGrid(c.g) && OnGrid(c.b)
  }

  /** The per-component quantisation error `v - q`, carried in r, g, b:
      the snapped value plus the error gives back the value. */
  function ErrorOf(c: Color, q: Color): (e: Color)
    ensures q.r + e.r == c.r && q.g + e.g == c.g && q.b + e.b == c.b && e.a == 0.0
  {
    Color(c.r - q.r, c.g - q.g, c.b - q.b, 0.0)
  }

  /** `c.r += w * e.r` and so on for g and b; alpha is kept. */
  function AddScaled(c: Color, w: real, e: Color): (d: Color)
    ensures d.a == c.a
    ensures w == 0.0 ==> d == c
  {
    c.(r := c.r + w * e.r, g := c.g + w * e.g, b := c.b + w * e.b)
  }
}
