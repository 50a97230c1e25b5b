/**
 * The isolated-pixel correction of the final crown mask (mask.py:81-97): a
 * background pixel whose whole 3x3 neighbourhood, zero-padded at the frame,
 * is background is set to foreground when the vegetation mask says so. All
 * decisions are taken on a padded copy made before the pass, so a pixel set
 * during the pass never influences another decision of the same pass.
 */
module IsolatedPixels {
  import opened Grids

  /** The mask zero-padded by one pixel on every side (np.pad with constant 0), in unpadded coordinates. */
  function Padded(g: Grid<Byte>, r: int, c: int): Byte {
    if 0 <= r < |g| && 0 <= c < |g[r]| then g[r][c] else 0
  }

  /** The vegetation mask padded the same way; padding reads as not vegetation. */
  function PaddedVegetation(v: Grid<bool>, r: int, c: int): bool {
    0 <= r < |v| && 0 <= c < |v[r]| && v[r][c]
  }

  /** Every pixel of the 3x3 window centred on (r, c), the centre included, is background. */
  predicate WindowClear(g: Grid<Byte>, r: int, c: int) {
    forall i, j :: r - 1 <= i <= r + 1 && c - 1 <= j <= c + 1 ==> Padded(g, i, j) == 0
  }

  /** The three tests of mask.py:90-95: the pixel is black, its window is black, the vegetation pixel is set. */
  predicate Flips(g: Grid<Byte>, v: Grid<bool>, r: int, c: int) {
    Padded(g, r, c) == 0 && WindowClear(g, r, c) && PaddedVegetation(v, r, c)
  }

  /** The mask after one correction pass, every decision read from the input g. */
  function Corrected(g: Grid<Byte>, v: Grid<bool>): (g': Grid<Byte>)
    ensures SameShape(g', g)
  {
    seq(|g|, r requires 0 <= r < |g| =>
      seq(|g[r]|, c requires 0 <= c < |g[r]| => if Flips(g, v, r, c) then 255 else g[r][c]))
  }

  /** A pixel changes exactly when the three tests hold on the input; it then becomes 255. */
  lemma CorrectedChangesExactlyFlips(g: Grid<Byte>, v: Grid<bool>, r: nat, c: nat)
    requires r < |g| && c < |g[r]|
    ensures Corrected(g, v)[r][c] != g[r][c] <==> Flips(g, v, r, c)
    ensures Flips(g, v, r, c) ==> Corrected(g, v)[r][c] == 255
  {
  }

  /** The pass only turns background into 255, never the reverse. */
  lemma CorrectedOnlyFillsBackground(g: Grid<Byte>, v: Grid<bool>)
    ensures forall r, c :: 0 <= r < |g| && 0 <= c < |g[r]| && Corrected(g, v)[r][c] != g[r][c] ==>
      g[r][c] == 0 && Corrected(g, v)[r][c] == 255
    ensures forall r, c :: 0 <= r < |g| && 0 <= c < |g[r]| && g[r][c] != 0 ==> Corrected(g, v)[r][c] == g[r][c]
  {
  }

  /** A binary {0, 255} mask stays binary. */
  lemma CorrectedKeepsBinary(g: Grid<Byte>, v: Grid<bool>)
    requires forall r, c :: 0 <= r < |g| && 0 <= c < |g[r]| ==> g[r][c] == 0 || g[r][c] == 255
    ensures forall r, c :: 0 <= r < |g| && 0 <= c < |g[r]| ==> Corrected(g, v)[r][c] == 0 || Corrected(g, v)[r][c] == 255
  {
  }

  /** A pixel that is background after the pass was background before it, at every padded position. */
  lemma BackgroundAfterWasBackground(g: Grid<Byte>, v: Grid<bool>, i: int, j: int)
    ensures Padded(Corrected(g, v), i, j) == 0 ==> Padded(g, i, j) == 0
  {
  }

  /** After the pass no pixel passes the three tests any more: nothing is left to patch. */
  lemma {:induction false} NoPatchableHoleRemains(g: Grid<Byte>, v: Grid<bool>, r: int, c: int)
    requires 0 <= r < |g| && 0 <= c < |g[r]|
    ensures !Flips(Corrected(g, v), v, r, c)
  {
    var g' := Corrected(g, v);
    if Flips(g', v, r, c) {
      forall i, j | r - 1 <= i <= r + 1 && c - 1 <= j <= c + 1
        ensures Padded(g, i, j) == 0
      {
        BackgroundAfterWasBackground(g, v, i, j);
      }
      assert Flips(g, v, r, c);
      assert false;
    }
  }

  /** A second pass over the corrected mask changes nothing (idempotence). */
  lemma {:induction false} CorrectedIdempotent(g: Grid<Byte>, v: Grid<bool>)
    ensures Corrected(Corrected(g, v), v) == Corrected(g, v)
  {
    var g' := Corrected(g, v);
    var g'' := Corrected(g', v);
    forall r | 0 <= r < |g'|
      ensures g''[r] == g'[r]
    {
      forall c | 0 <= c < |g'[r]|
        ensures g''[r][c] == g'[r][c]
      {
        NoPatchableHoleRemains(g, v, r, c);
      }
    }
  }

  /** Sum of the zero-padded 3x3 window: the all-ones convolution of the vectorised formulation. */
  function WindowSum(g: Grid<Byte>, r: int, c: int): int {
    Padded(g, r - 1, c - 1) + Padded(g, r - 1, c) + Padded(g, r - 1, c + 1) +
    Padded(g, r, c - 1) + Padded(g, r, c) + Padded(g, r, c + 1) +
    Padded(g, r + 1, c - 1) + Padded(g, r + 1, c) + Padded(g, r + 1, c + 1)
  }

  /** For non-negative pixels the window is clear exactly when the convolution is zero. */
  lemma WindowClearIffSumZero(g: Grid<Byte>, r: int, c: int)
    ensures WindowClear(g, r, c) <==> WindowSum(g, r, c) == 0
  {
    if WindowSum(g, r, c) == 0 {
      forall i, j | r - 1 <= i <= r + 1 && c - 1 <= j <= c + 1
        ensures Padded(g, i, j) == 0
      {
        assert i == r - 1 || i == r || i == r + 1;
        assert j == c - 1 || j == c || j == c + 1;
      }
    }
  }

  /** The vectorised pass: zero convolution, black pixel, vegetation set. */
  function CorrectedByConvolution(g: Grid<Byte>, v: Grid<bool>): (g': Grid<Byte>)
    ensures SameShape(g', g)
  {
    seq(|g|, r requires 0 <= r < |g| =>
      seq(|g[r]|, c requires 0 <= c < |g[r]| =>
        if WindowSum(g, r, c) == 0 && g[r][c] == 0 && PaddedVegetation(v, r, c) then 255 else g[r][c]))
  }

  /** The vectorised formulation behaves exactly like the pixel loop. */
  lemma {:induction false} ConvolutionAgreesWithLoop(g: Grid<Byte>, v: Grid<bool>)
    ensures CorrectedByConvolution(g, v) == Corrected(g, v)
  {
    var a, b := CorrectedByConvolution(g, v), Corrected(g, v);
    forall r | 0 <= r < |g|
      ensures a[r] == b[r]
    {
      forall c | 0 <= c < |g[r]|
        ensures a[r][c] == b[r][c]
      {
        WindowClearIffSumZero(g, r, c);
      }
    }
  }

  /** A copy of a surrounded by a one-pixel frame of fill (np.pad with pad_width=1, mode='constant'). */
  method Pad<T(0)>(a: array2<T>, fill: T) returns (p: array2<T>)
    ensures fresh(p) && p.Length0 == a.Length0 + 2 && p.Length1 == a.Length1 + 2
    ensures forall i, j :: 0 <= i < p.Length0 && 0 <= j < p.Length1 ==>
      p[i, j] == if 1 <= i <= a.Length0 && 1 <= j <= a.Length1 then a[i - 1, j - 1] else fill
  {
    p := new T[a.Length0 + 2, a.Length1 + 2];
    forall i, j | 0 <= i < p.Length0 && 0 <= j < p.Length1 {
      p[i, j] := if 1 <= i <= a.Length0 && 1 <= j <= a.Length1 then a[i - 1, j - 1] else fill;
    }
  }

  /** np.all(p[i-1:i+2, j-1:j+2] == 0) on the padded copy. */
  predicate AllZeroAround(p: array2<Byte>, i: nat, j: nat)
    requires 1 <= i < p.Length0 - 1 && 1 <= j < p.Length1 - 1
    reads p
  {
    forall a, b :: i - 1 <= a <= i + 1 && j - 1 <= b <= j + 1 ==> p[a, b] == 0
  }

  /** p holds g zero-padded by one pixel on every side. */
  ghost predicate IsPaddedMask(p: array2<Byte>, g: Grid<Byte>)
    reads p
  {
    p.Length0 >= 2 && p.Length1 >= 2 && IsGrid(g, p.Length0 - 2, p.Length1 - 2) &&
    forall a, b :: 0 <= a < p.Length0 && 0 <= b < p.Length1 ==> p[a, b] == Padded(g, a - 1, b - 1)
  }

  /** q holds v padded with false by one pixel on every side. */
  ghost predicate IsPaddedVegetation(q: array2<bool>, v: Grid<bool>)
    reads q
  {
    q.Length0 >= 2 && q.Length1 >= 2 && IsGrid(v, q.Length0 - 2, q.Length1 - 2) &&
    forall a, b :: 0 <= a < q.Length0 && 0 <= b < q.Length1 ==> q[a, b] == PaddedVegetation(v, a - 1, b - 1)
  }

  /** The three tests of the loop body, read from the padded copies, are Flips on the unpadded rasters. */
  lemma DecisionIsFlips(p: array2<Byte>, q: array2<bool>, g: Grid<Byte>, v: Grid<bool>, i: nat, j: nat)
    requires IsPaddedMask(p, g) && IsPaddedVegetation(q, v)
    requires p.Length0 == q.Length0 && p.Length1 == q.Length1
    requires 1 <= i < p.Length0 - 1 && 1 <= j < p.Length1 - 1
    ensures (p[i, j] == 0 && AllZeroAround(p, i, j) && q[i, j]) <==> Flips(g, v, i - 1, j - 1)
  {
    if AllZeroAround(p, i, j) {
      forall a, b | i - 2 <= a <= i && j - 2 <= b <= j
        ensures Padded(g, a, b) == 0
      {
        assert p[a + 1, b + 1] == 0;
      }
    }
    if WindowClear(g, i - 1, j - 1) {
      forall a, b | i - 1 <= a <= i + 1 && j - 1 <= b <= j + 1
        ensures p[a, b] == 0
      {
        assert Padded(g, a - 1, b - 1) == 0;
      }
    }
  }

  /** One row of the pass: the inner loop of mask.py:88-97 for padded row i. */
  method CorrectRow(finalMask: array2<Byte>, padded: array2<Byte>, paddedVegetation: array2<bool>, i: nat,
                    ghost before: Grid<Byte>, ghost vegetation: Grid<bool>)
    requires IsPaddedMask(padded, before) && IsPaddedVegetation(paddedVegetation, vegetation)
    requires padded.Length0 == finalMask.Length0 + 2 && padded.Length1 == finalMask.Length1 + 2
    requires paddedVegetation.Length0 == padded.Length0 && paddedVegetation.Length1 == padded.Length1
    requires 1 <= i <= finalMask.Length0
    modifies finalMask
    ensures forall r, c :: 0 <= r < finalMask.Length0 && 0 <= c < finalMask.Length1 ==>
      finalMask[r, c] == if r == i - 1 && Flips(before, vegetation, r, c) then 255 else old(finalMask[r, c])
  {
    var j := 1;
    while j < finalMask.Length1 + 1
      invariant 1 <= j <= finalMask.Length1 + 1
      invariant forall r, c :: 0 <= r < finalMask.Length0 && 0 <= c < finalMask.Length1 ==>
        finalMask[r, c] == if r == i - 1 && c < j - 1 && Flips(before, vegetation, r, c) then 255 else old(finalMask[r, c])
      modifies finalMask
    {
      DecisionIsFlips(padded, paddedVegetation, before, vegetation, i, j);
      if padded[i, j] == 0 {
        if AllZeroAround(padded, i, j) {
          if paddedVegetation[i, j] {
            finalMask[i - 1, j - 1] := 255;
          }
        }
      }
      j := j + 1;
    }
  }

  /**
   * correct_isolated_black_pixels: patches final_mask in place; vegetation is
   * only read. The new mask is one correction pass over the old one.
   */
  method CorrectIsolatedBlackPixels(finalMask: array2<Byte>, vegetation: array2<bool>)
    requires vegetation.Length0 == finalMask.Length0 && vegetation.Length1 == finalMask.Length1
    modifies finalMask
    ensures Snapshot(finalMask) == Corrected(old(Snapshot(finalMask)), Snapshot(vegetation))
  {
    ghost var before := Snapshot(finalMask);
    ghost var vg := Snapshot(vegetation);
    ghost var target := Corrected(before, vg);
    var padded := Pad(finalMask, 0);
    var paddedVegetation := Pad(vegetation, false);
    assert IsPaddedMask(padded, before);
    assert IsPaddedVegetation(paddedVegetation, vg);
    var i := 1;
    while i < finalMask.Length0 + 1
      invariant 1 <= i <= finalMask.Length0 + 1
      invariant forall r, c :: 0 <= r < finalMask.Length0 && 0 <= c < finalMask.Length1 ==>
        finalMask[r, c] == if r < i - 1 then target[r][c] else before[r][c]
      modifies finalMask
    {
      CorrectRow(finalMask, padded, paddedVegetation, i, before, vg);
      i := i + 1;
    }
    SnapshotIs(finalMask, target);
  }
}
