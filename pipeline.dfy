/**
 * The grid bookkeeping of process_image after segmentation (mask.py:128-159,
 * 176), in the source's order: rasterise the crown contours into an all-false
 * boundary mask, paint it, turn the painting back into a mask, fill its holes,
 * compose the final mask, correct isolated pixels, compose the overlay and
 * count the crowns, both as mask.py:176 computes the count (reported) and as
 * the number of distinct non-zero labels (count). Hole filling (binary_fill_holes) is a library stage and
 * arrives as the function fillHoles; the vegetation mask, the label map and
 * the traced contours are inputs.
 */
module Pipeline {
  import opened Grids
  import opened Boundary
  import opened Composition
  import opened IsolatedPixels
  import CrownCount

  method ProcessLabels(composite: Grid<Rgb>, vegetation: Grid<bool>, labels: Grid<int>, crowns: seq<Crown>,
                       fillHoles: Grid<bool> -> Grid<bool>, h: nat, w: nat)
    returns (boundaryMask: Grid<bool>, finalMask: Grid<Byte>, overlay: Grid<Rgb>, count: nat, reported: int)
    requires h > 0 && w > 0
    requires IsGrid(composite, h, w) && IsGrid(vegetation, h, w) && IsGrid(labels, h, w)
    requires forall m :: IsGrid(m, h, w) ==> IsGrid(fillHoles(m), h, w)
    ensures IsGrid(boundaryMask, h, w)
    ensures forall r, c :: 0 <= r < h && 0 <= c < w ==>
      (boundaryMask[r][c] <==> (r, c) in Cells(DrawnPoints(crowns), h, w))
    ensures SameShape(fillHoles(boundaryMask), boundaryMask)
    ensures IsGrid(finalMask, h, w) && IsGrid(overlay, h, w)
    ensures finalMask == Corrected(FinalMaskOf(fillHoles(boundaryMask), boundaryMask), vegetation)
    ensures forall r, c :: 0 <= r < h && 0 <= c < w ==> finalMask[r][c] == 0 || finalMask[r][c] == 255
    ensures forall r, c :: 0 <= r < h && 0 <= c < w ==>
      overlay[r][c] == if boundaryMask[r][c] then Rgb(255, 255, composite[r][c].blue) else composite[r][c]
    ensures count == CrownCount.CrownCount(labels)
    ensures reported == CrownCount.CrownCountAsWritten(labels)
    ensures reported == count <==> 0 in CrownCount.LabelValues(labels)
  {
    var boundary := new bool[h, w]((r, c) => false);
    RasteriseBoundaries(boundary, crowns);
    boundaryMask := Snapshot(boundary);
    var colored := Painted(boundaryMask, BoundaryColor);
    var maskFromColored := MaskFromColored(colored);
    MaskFromBoundaryColored(boundaryMask);
    var filledRegions := FromGrid(fillHoles(maskFromColored), h, w);
    var composed := ComposeFinalMask(filledRegions, boundary);
    var vegetationArray := FromGrid(vegetation, h, w);
    CorrectIsolatedBlackPixels(composed, vegetationArray);
    finalMask := Snapshot(composed);
    assert IsGrid(fillHoles(boundaryMask), h, w);
    forall r, c | 0 <= r < h && 0 <= c < w
      ensures finalMask[r][c] == 0 || finalMask[r][c] == 255
    {
      FinalMaskValues(fillHoles(boundaryMask), boundaryMask, r, c);
    }
    CorrectedKeepsBinary(FinalMaskOf(fillHoles(boundaryMask), boundaryMask), vegetation);
    overlay := Overlay(colored, composite);
    forall r, c | 0 <= r < h && 0 <= c < w
      ensures overlay[r][c] == if boundaryMask[r][c] then Rgb(255, 255, composite[r][c].blue) else composite[r][c]
    {
      OverlayPixels(boundaryMask, composite, r, c);
    }
    count := CrownCount.CrownCount(labels);
    reported := CrownCount.CrownCountAsWritten(labels);
    CrownCount.AsWrittenAgreesIffBackground(labels);
  }
}
