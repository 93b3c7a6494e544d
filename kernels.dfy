/** The `DitheringType` enumeration and the static table of error-diffusion
    kernels (`_ditheringCores`). */
module Kernels {

  datatype DitheringType = None | FloydSteinberg | JarvisJudiceNinke | Burkes | Sierra3 | Sierra2 | SierraLite

  /** The enumeration's integer value, `(int) ditheringType`. */
  function Ordinal(t: DitheringType): (n: nat)
    ensures n <= 6
    ensures (n == 0) == t.None?
  {
    match t
    case None => 0
    case FloydSteinberg => 1
    case JarvisJudiceNinke => 2
    case Burkes => 3
    case Sierra3 => 4
    case Sierra2 => 5
    case SierraLite => 6
  }

  /** A kernel: rows of weights; row 0 is the current pixel's row. */
  type Kernel = seq<seq<real>>

  const DitheringCores: seq<Kernel> := [
    // Floyd-Steinberg
    [ [0.0 / 16.0, 0.0 / 16.0, 7.0 / 16.0],
      [3.0 / 16.0, 5.0 / 16.0, 1.0 / 16.0] ],
    // Jarvis-Judice-Ninke
    [ [0.0 / 48.0, 0.0 / 48.0, 0.0 / 48.0, 7.0 / 48.0, 5.0 / 48.0],
      [3.0 / 48.0, 5.0 / 48.0, 7.0 / 48.0, 5.0 / 48.0, 3.0 / 48.0],
      [1.0 / 48.0, 3.0 / 48.0, 5.0 / 48.0, 3.0 / 48.0, 1.0 / 48.0] ],
    // Burkes
    [ [0.0 / 32.0, 0.0 / 32.0, 0.0 / 32.0, 8.0 / 32.0, 4.0 / 32.0],
      [2.0 / 32.0, 4.0 / 32.0, 8.0 / 32.0, 4.0 / 32.0, 2.0 / 32.0] ],
    // Sierra-3
    [ [0.0 / 32.0, 0.0 / 32.0, 0.0 / 32.0, 5.0 / 32.0, 3.0 / 32.0],
      [2.0 / 32.0, 4.0 / 32.0, 5.0 / 32.0, 4.0 / 32.0, 2.0 / 32.0],
      [0.0 / 32.0, 2.0 / 32.0, 3.0 / 32.0, 2.0 / 32.0, 0.0 / 32.0] ],
    // Sierra-2
    [ [0.0 / 16.0, 0.0 / 16.0, 0.0 / 16.0, 4.0 / 16.0, 3.0 / 16.0],
      [1.0 / 16.0, 2.0 / 16.0, 3.0 / 16.0, 2.0 / 16.0, 1.0 / 16.0] ],
    // Sierra-Lite
    [ [0.0 / 4.0, 0.0 / 4.0, 2.0 / 4.0],
      [1.0 / 4.0, 1.0 / 4.0, 0.0 / 4.0] ]
  ]

  /** `_ditheringCores[(int) ditheringType - 1]`; "none" has no kernel. */
  function KernelOf(t: DitheringType): Kernel
    requires !t.None?
  {
    DitheringCores[Ordinal(t) - 1]
  }

  /** `coreWth`, the width of row 0. */
  function Width(k: Kernel): nat
  {
    if |k| == 0 then 0 else |k[0]|
  }

  /** `coreWthOffset = (coreWth - 1) >> 1`: the column of the current pixel. */
  function Anchor(k: Kernel): (a: int)
    ensures Width(k) % 2 == 1 ==> 0 <= a < Width(k) && 2 * a + 1 == Width(k)
  {
    (Width(k) - 1) / 2
  }

  function RowSum(w: seq<real>): real
  {
    if |w| == 0 then 0.0 else RowSum(w[..|w| - 1]) + w[|w| - 1]
  }

  function Total(k: Kernel): real
  {
    if |k| == 0 then 0.0 else Total(k[..|k| - 1]) + RowSum(k[|k| - 1])
  }

  /** What the ditherer relies on: at least one row, every row as wide as row 0,
      an odd width, no negative weight, weights summing to 1, and row 0 zero at
      and left of the anchor (no error goes back to a visited pixel). */
  predicate WellFormed(k: Kernel)
  {
    |k| >= 1 && Width(k) % 2 == 1 &&
    (forall row :: 0 <= row < |k| ==> |k[row]| == Width(k)) &&
    (forall row, col :: 0 <= row < |k| && 0 <= col < |k[row]| ==> k[row][col] >= 0.0) &&
    Total(k) == 1.0 &&
    (forall col :: 0 <= col <= Anchor(k) ==> k[0][col] == 0.0)
  }

  lemma RowSumThree(w: seq<real>)
    requires |w| == 3
    ensures RowSum(w) == w[0] + w[1] + w[2]
  {
    assert w[..2][..1] == w[..1];
    assert w[..1][..0] == [];
    assert RowSum(w[..1]) == w[0];
    assert RowSum(w[..2]) == w[0] + w[1];
  }

  lemma RowSumFive(w: seq<real>)
    requires |w| == 5
    ensures RowSum(w) == w[0] + w[1] + w[2] + w[3] + w[4]
  {
    assert w[..4][..3] == w[..3];
    RowSumThree(w[..3]);
  }

  lemma TotalRows(k: Kernel)
    requires 2 <= |k| <= 3
    ensures |k| == 2 ==> Total(k) == RowSum(k[0]) + RowSum(k[1])
    ensures |k| == 3 ==> Total(k) == RowSum(k[0]) + RowSum(k[1]) + RowSum(k[2])
  {
    assert k[..|k| - 1][..1] == k[..1];
    assert k[..1][..0] == [];
    if |k| == 3 {
      assert k[..2][..1] == k[..1];
    }
  }

  /** Every kernel of the table is well formed, with the shape its name gives. */
  lemma KernelsWellFormed(t: DitheringType)
    requires !t.None?
    ensures WellFormed(KernelOf(t))
    ensures |KernelOf(t)| == (if t.JarvisJudiceNinke? || t.Sierra3? then 3 else 2)
    ensures Width(KernelOf(t)) == (if t.FloydSteinberg? || t.SierraLite? then 3 else 5)
  {
    var k := KernelOf(t);
    TotalRows(k);
    if Width(k) == 3 {
      RowSumThree(k[0]);
      RowSumThree(k[1]);
    } else {
      RowSumFive(k[0]);
      RowSumFive(k[1]);
      if |k| == 3 {
        RowSumFive(k[2]);
      }
    }
  }
}
