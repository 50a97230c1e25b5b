/**
 * Composition of the final mask and of the overlay (mask.py:128-159): the
 * boundary mask is painted in the boundary colour, turned back into a boolean
 * mask by testing every channel for non-zero, the filled regions become 255 and
 * the boundary pixels 0, and the overlay takes, channel by channel, the painted
 * value where it is non-zero and the original composite elsewhere.
 */
module Composition {
  import opened Grids

  /** One pixel of the three-channel composite (R_I is cast to uint16). */
  datatype Rgb = Rgb(red: UInt16, green: UInt16, blue: UInt16)

  /** boundary_color = [255, 255, 0] (mask.py:129). */
  const BoundaryColor: Rgb := Rgb(255, 255, 0)

  /** A pixel of np.zeros_like. */
  const Black: Rgb := Rgb(0, 0, 0)

  /** boundary_colored = zeros_like(...); boundary_colored[boundary_mask] = color. */
  function Painted(boundary: Grid<bool>, color: Rgb): (colored: Grid<Rgb>)
    ensures SameShape(colored, boundary)
  {
    seq(|boundary|, r requires 0 <= r < |boundary| =>
      seq(|boundary[r]|, c requires 0 <= c < |boundary[r]| => if boundary[r][c] then color else Black))
  }

  /** np.any(p != 0) over the channel axis. */
  predicate AnyChannel(p: Rgb) {
    p.red != 0 || p.green != 0 || p.blue != 0
  }

  /** mask_from_boundary_colored = np.any(boundary_colored != 0, axis=-1) (mask.py:147). */
  function MaskFromColored(colored: Grid<Rgb>): (m: Grid<bool>)
    ensures SameShape(m, colored)
  {
    seq(|colored|, r requires 0 <= r < |colored| =>
      seq(|colored[r]|, c requires 0 <= c < |colored[r]| => AnyChannel(colored[r][c])))
  }

  /** Painting in a colour with a non-zero channel and testing the channels gives the boundary mask back. */
  lemma {:induction false} MaskFromPaintedIsBoundary(boundary: Grid<bool>, color: Rgb)
    requires AnyChannel(color)
    ensures MaskFromColored(Painted(boundary, color)) == boundary
  {
    var m := MaskFromColored(Painted(boundary, color));
    forall r | 0 <= r < |boundary|
      ensures m[r] == boundary[r]
    {
    }
  }

  /** In particular for the boundary colour of mask.py:129. */
  lemma MaskFromBoundaryColored(boundary: Grid<bool>)
    ensures MaskFromColored(Painted(boundary, BoundaryColor)) == boundary
  {
    MaskFromPaintedIsBoundary(boundary, BoundaryColor);
  }

  /** np.where(cond != 0, x, y) on one pixel, channel by channel. */
  function Select(cond: Rgb, x: Rgb, y: Rgb): Rgb {
    Rgb(if cond.red != 0 then x.red else y.red,
        if cond.green != 0 then x.green else y.green,
        if cond.blue != 0 then x.blue else y.blue)
  }

  /** original_with_boundaries = np.where(boundary_colored != 0, boundary_colored, original) (mask.py:159). */
  function Overlay(colored: Grid<Rgb>, original: Grid<Rgb>): (o: Grid<Rgb>)
    requires SameShape(colored, original)
    ensures SameShape(o, original)
  {
    seq(|original|, r requires 0 <= r < |original| =>
      seq(|original[r]|, c requires 0 <= c < |original[r]| => Select(colored[r][c], colored[r][c], original[r][c])))
  }

  /**
   * Off the boundary the overlay is the original composite; on it, red and
   * green are 255 and blue keeps the original value, because the boundary
   * colour's zero blue channel selects the original.
   */
  lemma OverlayPixels(boundary: Grid<bool>, original: Grid<Rgb>, r: nat, c: nat)
    requires SameShape(boundary, original) && r < |original| && c < |original[r]|
    ensures var o := Overlay(Painted(boundary, BoundaryColor), original);
      o[r][c] == if boundary[r][c] then Rgb(255, 255, original[r][c].blue) else original[r][c]
  {
  }

  /** The final mask before the isolated-pixel correction: 255 on filled pixels, then 0 on boundary pixels. */
  function FinalMaskOf(filled: Grid<bool>, boundary: Grid<bool>): (m: Grid<Byte>)
    requires SameShape(filled, boundary)
    ensures SameShape(m, filled)
  {
    seq(|filled|, r requires 0 <= r < |filled| =>
      seq(|filled[r]|, c requires 0 <= c < |filled[r]| => if boundary[r][c] then 0 else if filled[r][c] then 255 else 0))
  }

  /** The final mask is binary, and a pixel is 255 exactly when it is filled and not on a boundary. */
  lemma FinalMaskValues(filled: Grid<bool>, boundary: Grid<bool>, r: nat, c: nat)
    requires SameShape(filled, boundary) && r < |filled| && c < |filled[r]|
    ensures FinalMaskOf(filled, boundary)[r][c] == 0 || FinalMaskOf(filled, boundary)[r][c] == 255
    ensures FinalMaskOf(filled, boundary)[r][c] == 255 <==> filled[r][c] && !boundary[r][c]
  {
  }

  /** final_mask = zeros; final_mask[filled_regions] = 255; final_mask[boundary_mask] = 0 (mask.py:152-154). */
  method ComposeFinalMask(filled: array2<bool>, boundary: array2<bool>) returns (finalMask: array2<Byte>)
    requires boundary.Length0 == filled.Length0 && boundary.Length1 == filled.Length1
    ensures fresh(finalMask) && finalMask.Length0 == filled.Length0 && finalMask.Length1 == filled.Length1
    ensures Snapshot(finalMask) == FinalMaskOf(Snapshot(filled), Snapshot(boundary))
  {
    finalMask := new Byte[filled.Length0, filled.Length1]((r, c) => 0);
    forall r, c | 0 <= r < filled.Length0 && 0 <= c < filled.Length1 && filled[r, c] {
      finalMask[r, c] := 255;
    }
    forall r, c | 0 <= r < filled.Length0 && 0 <= c < filled.Length1 && boundary[r, c] {
      finalMask[r, c] := 0;
    }
    SnapshotIs(finalMask, FinalMaskOf(Snapshot(filled), Snapshot(boundary)));
  }
}
