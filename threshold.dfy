/**
 * The vegetation threshold (mask.py:116): a pixel is vegetation when its index
 * value lies strictly above the threshold. Index values are modelled as exact
 * reals; the floating-point index computation that produces them is not part
 * of this model.
 */
module Threshold {
  import opened Grids

  /** vegetation_mask = ndvi > threshold, pixel by pixel. */
  function VegetationMask(ndvi: Grid<real>, threshold: real): (m: Grid<bool>)
    ensures SameShape(m, ndvi)
  {
    seq(|ndvi|, r requires 0 <= r < |ndvi| =>
      seq(|ndvi[r]|, c requires 0 <= c < |ndvi[r]| => ndvi[r][c] > threshold))
  }

  /** Number of true pixels in a row. */
  function CountRow(row: seq<bool>): nat {
    if row == [] then 0 else CountRow(row[..|row| - 1]) + (if row[|row| - 1] then 1 else 0)
  }

  /** Number of true pixels in a mask. */
  function CountTrue(m: Grid<bool>): nat {
    if m == [] then 0 else CountTrue(m[..|m| - 1]) + CountRow(m[|m| - 1])
  }

  /** Raising the threshold never turns a non-vegetation pixel into vegetation. */
  lemma ThresholdMonotone(ndvi: Grid<real>, low: real, high: real, r: nat, c: nat)
    requires low <= high && r < |ndvi| && c < |ndvi[r]|
    ensures VegetationMask(ndvi, high)[r][c] ==> VegetationMask(ndvi, low)[r][c]
  {
  }

  /** A row that is true wherever another is has at least as many true pixels. */
  lemma {:induction false} CountRowMonotone(a: seq<bool>, b: seq<bool>)
    requires |a| == |b| && forall c :: 0 <= c < |a| && a[c] ==> b[c]
    ensures CountRow(a) <= CountRow(b)
  {
    if a != [] {
      CountRowMonotone(a[..|a| - 1], b[..|b| - 1]);
    }
  }

  /** The same for whole masks. */
  lemma {:induction false} CountTrueMonotone(a: Grid<bool>, b: Grid<bool>)
    requires SameShape(a, b)
    requires forall r, c :: 0 <= r < |a| && 0 <= c < |a[r]| && a[r][c] ==> b[r][c]
    ensures CountTrue(a) <= CountTrue(b)
  {
    if a != [] {
      var n := |a| - 1;
      CountTrueMonotone(a[..n], b[..n]);
      CountRowMonotone(a[n], b[n]);
    }
  }

  /** For thresholds low <= high the mask at high has no more vegetation pixels than the mask at low. */
  lemma ThresholdCountMonotone(ndvi: Grid<real>, low: real, high: real)
    requires low <= high
    ensures CountTrue(VegetationMask(ndvi, high)) <= CountTrue(VegetationMask(ndvi, low))
  {
    CountTrueMonotone(VegetationMask(ndvi, high), VegetationMask(ndvi, low));
  }

  /** A row with no true pixel counts zero. */
  lemma {:induction false} CountRowNone(row: seq<bool>)
    requires forall c :: 0 <= c < |row| ==> !row[c]
    ensures CountRow(row) == 0
  {
    if row != [] {
      CountRowNone(row[..|row| - 1]);
    }
  }

  /** A threshold at or above every index value gives an empty vegetation mask. */
  lemma {:induction false} ThresholdAboveAllIsEmpty(ndvi: Grid<real>, threshold: real)
    requires forall r, c :: 0 <= r < |ndvi| && 0 <= c < |ndvi[r]| ==> ndvi[r][c] <= threshold
    ensures CountTrue(VegetationMask(ndvi, threshold)) == 0
  {
    var m := VegetationMask(ndvi, threshold);
    if ndvi != [] {
      var n := |ndvi| - 1;
      ThresholdAboveAllIsEmpty(ndvi[..n], threshold);
      assert VegetationMask(ndvi[..n], threshold) == m[..n];
      CountRowNone(m[n]);
    }
  }
}
