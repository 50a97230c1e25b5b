/**
 * Rasterisation of crown contours into the boundary mask (mask.py:131-143).
 * The labels come from np.unique(labels) and the contour points from
 * measure.find_contours followed by np.round(...).astype(int); both stages are
 * outside this model, so each crown arrives as its label with its contours of
 * whole-pixel points. Label 0 (background) is skipped; every other point is
 * clipped into the raster and its pixel set to true.
 */
module Boundary {
  import opened Grids

  /** A contour point after rounding: (row, column). */
  type Point = (int, int)

  /** One label value (id) of the label map with the contours traced around its pixels. */
  datatype Crown = Crown(id: int, contours: seq<seq<Point>>)

  /** The distance |x - y| between two integers. */
  function Distance(x: int, y: int): nat {
    if x <= y then y - x else x - y
  }

  /** np.clip(x, 0, hi): the value of [0, hi] nearest to x. */
  function Clip(x: int, hi: nat): (y: int)
    ensures 0 <= y <= hi
    ensures forall z :: 0 <= z <= hi ==> Distance(x, y) <= Distance(x, z)
  {
    if x < 0 then 0 else if x > hi then hi else x
  }

  /** The pixel a point marks in an h-by-w raster. */
  function Cell(p: Point, h: nat, w: nat): (q: Point)
    requires h > 0 && w > 0
    ensures 0 <= q.0 < h && 0 <= q.1 < w
    ensures 0 <= p.0 < h && 0 <= p.1 < w ==> q == p
  {
    (Clip(p.0, h - 1), Clip(p.1, w - 1))
  }

  /** The points of a list of contours, one contour after another. */
  function ContourPoints(contours: seq<seq<Point>>): seq<Point>
  {
    if contours == [] then [] else ContourPoints(contours[..|contours| - 1]) + contours[|contours| - 1]
  }

  /** The points that are drawn for a list of crowns: those of every crown with a non-zero label. */
  function DrawnPoints(crowns: seq<Crown>): seq<Point>
  {
    if crowns == [] then []
    else
      var last := crowns[|crowns| - 1];
      DrawnPoints(crowns[..|crowns| - 1]) + (if last.id == 0 then [] else ContourPoints(last.contours))
  }

  /** The pixels marked by a sequence of points. */
  function Cells(ps: seq<Point>, h: nat, w: nat): set<Point>
    requires h > 0 && w > 0
  {
    set p | p in ps :: Cell(p, h, w)
  }

  /** All marked pixels lie inside the raster: the loop never writes outside [0, h-1] x [0, w-1]. */
  lemma CellsInBounds(ps: seq<Point>, h: nat, w: nat)
    requires h > 0 && w > 0
    ensures forall q :: q in Cells(ps, h, w) ==> 0 <= q.0 < h && 0 <= q.1 < w
  {
  }

  /** The pixels of two point lists one after the other are the pixels of each. */
  lemma CellsOfConcat(a: seq<Point>, b: seq<Point>, h: nat, w: nat)
    requires h > 0 && w > 0
    ensures Cells(a + b, h, w) == Cells(a, h, w) + Cells(b, h, w)
  {
    assert forall p :: p in a + b <==> p in a || p in b;
  }

  /** A single point marks exactly its own clipped pixel. */
  lemma CellsOfSingleton(p: Point, h: nat, w: nat)
    requires h > 0 && w > 0
    ensures Cells([p], h, w) == {Cell(p, h, w)}
  {
    assert p in [p];
  }

  /** Every point of every contour is among the contour points. */
  lemma {:induction false} ContourPointsContain(contours: seq<seq<Point>>, m: nat, n: nat)
    requires m < |contours| && n < |contours[m]|
    ensures contours[m][n] in ContourPoints(contours)
  {
    if m < |contours| - 1 {
      ContourPointsContain(contours[..|contours| - 1], m, n);
    }
  }

  /** Every contour point is a point of one of the contours. */
  lemma {:induction false} ContourPointsFrom(contours: seq<seq<Point>>, p: Point)
    requires p in ContourPoints(contours)
    ensures exists m, n :: 0 <= m < |contours| && 0 <= n < |contours[m]| && contours[m][n] == p
  {
    var init := contours[..|contours| - 1];
    if p in ContourPoints(init) {
      ContourPointsFrom(init, p);
      var m, n :| 0 <= m < |init| && 0 <= n < |init[m]| && init[m][n] == p;
      assert contours[m][n] == p;
    } else {
      var last := contours[|contours| - 1];
      assert p in last;
      var n :| 0 <= n < |last| && last[n] == p;
      assert contours[|contours| - 1][n] == p;
    }
  }

  /** Every point of every contour of every crown with a non-zero label is drawn. */
  lemma {:induction false} NonZeroCrownPointsDrawn(crowns: seq<Crown>, k: nat, m: nat, n: nat)
    requires k < |crowns| && crowns[k].id != 0
    requires m < |crowns[k].contours| && n < |crowns[k].contours[m]|
    ensures crowns[k].contours[m][n] in DrawnPoints(crowns)
  {
    if k < |crowns| - 1 {
      NonZeroCrownPointsDrawn(crowns[..|crowns| - 1], k, m, n);
    } else {
      ContourPointsContain(crowns[k].contours, m, n);
    }
  }

  /** Every drawn point comes from a crown with a non-zero label: label 0 contributes nothing. */
  lemma {:induction false} DrawnPointsFromNonZeroCrowns(crowns: seq<Crown>, p: Point)
    requires p in DrawnPoints(crowns)
    ensures exists k, m, n ::
      (0 <= k < |crowns| && crowns[k].id != 0 &&
       0 <= m < |crowns[k].contours| && 0 <= n < |crowns[k].contours[m]| && crowns[k].contours[m][n] == p)
  {
    var init := crowns[..|crowns| - 1];
    var last := crowns[|crowns| - 1];
    if p in DrawnPoints(init) {
      DrawnPointsFromNonZeroCrowns(init, p);
      var k, m, n :| 0 <= k < |init| && init[k].id != 0 &&
        0 <= m < |init[k].contours| && 0 <= n < |init[k].contours[m]| && init[k].contours[m][n] == p;
      assert crowns[k] == init[k];
    } else {
      assert last.id != 0 && p in ContourPoints(last.contours);
      ContourPointsFrom(last.contours, p);
      var m, n :| 0 <= m < |last.contours| && 0 <= n < |last.contours[m]| && last.contours[m][n] == p;
      assert crowns[|crowns| - 1].contours[m][n] == p;
    }
  }

  /** boundary_mask[rr, cc] = True for the clipped points of one contour. */
  method MarkContour(boundary: array2<bool>, contour: seq<Point>)
    requires boundary.Length0 > 0 && boundary.Length1 > 0
    modifies boundary
    ensures forall r, c :: 0 <= r < boundary.Length0 && 0 <= c < boundary.Length1 ==>
      boundary[r, c] == (old(boundary[r, c]) || (r, c) in Cells(contour, boundary.Length0, boundary.Length1))
  {
    var h, w := boundary.Length0, boundary.Length1;
    var n := 0;
    while n < |contour|
      invariant 0 <= n <= |contour|
      invariant forall r, c :: 0 <= r < h && 0 <= c < w ==>
        boundary[r, c] == (old(boundary[r, c]) || (r, c) in Cells(contour[..n], h, w))
    {
      var rr := Clip(contour[n].0, h - 1);
      var cc := Clip(contour[n].1, w - 1);
      boundary[rr, cc] := true;
      assert contour[..n + 1] == contour[..n] + [contour[n]];
      CellsOfConcat(contour[..n], [contour[n]], h, w);
      CellsOfSingleton(contour[n], h, w);
      n := n + 1;
    }
    assert contour[..n] == contour;
  }

  /**
   * The rasterisation loop: for each crown with a non-zero label, mark every
   * contour. A pixel is true afterwards exactly when it was true before or
   * some drawn point clips to it.
   */
  method RasteriseBoundaries(boundary: array2<bool>, crowns: seq<Crown>)
    requires boundary.Length0 > 0 && boundary.Length1 > 0
    modifies boundary
    ensures forall r, c :: 0 <= r < boundary.Length0 && 0 <= c < boundary.Length1 ==>
      boundary[r, c] == (old(boundary[r, c]) || (r, c) in Cells(DrawnPoints(crowns), boundary.Length0, boundary.Length1))
  {
    var h, w := boundary.Length0, boundary.Length1;
    var k := 0;
    while k < |crowns|
      invariant 0 <= k <= |crowns|
      invariant forall r, c :: 0 <= r < h && 0 <= c < w ==>
        boundary[r, c] == (old(boundary[r, c]) || (r, c) in Cells(DrawnPoints(crowns[..k]), h, w))
    {
      var crown := crowns[k];
      assert crowns[..k + 1][..k] == crowns[..k];
      if crown.id == 0 {
        k := k + 1;
        continue;
      }
      var m := 0;
      while m < |crown.contours|
        invariant 0 <= m <= |crown.contours|
        invariant forall r, c :: 0 <= r < h && 0 <= c < w ==>
          boundary[r, c] == (old(boundary[r, c]) ||
            (r, c) in Cells(DrawnPoints(crowns[..k]) + ContourPoints(crown.contours[..m]), h, w))
      {
        MarkContour(boundary, crown.contours[m]);
        assert crown.contours[..m + 1][..m] == crown.contours[..m];
        CellsOfConcat(DrawnPoints(crowns[..k]) + ContourPoints(crown.contours[..m]), crown.contours[m], h, w);
        CellsOfConcat(DrawnPoints(crowns[..k]), ContourPoints(crown.contours[..m]), h, w);
        CellsOfConcat(DrawnPoints(crowns[..k]), ContourPoints(crown.contours[..m + 1]), h, w);
        m := m + 1;
      }
      assert crown.contours[..m] == crown.contours;
      k := k + 1;
    }
    assert crowns[..k] == crowns;
  }
}
