/**
 * enforce_edge_connectivity (mask.py:75-80): each border row and column of a
 * boolean mask is OR-ed, in place, with its inner neighbour, in the order top,
 * bottom, left, right. The column steps therefore see the corners already
 * updated by the row steps. The operation indexes row 1 and column 1, so a
 * mask with fewer than two rows or columns makes numpy raise an IndexError;
 * the model reports that as a failed outcome, after the steps that ran.
 */
module EdgeConnectivity {
  import opened Grids

  /** mask[dst, :] = mask[dst, :] | mask[src, :] */
  function OrRowInto(g: Grid<bool>, h: nat, w: nat, dst: nat, src: nat): (g': Grid<bool>)
    requires IsGrid(g, h, w) && dst < h && src < h
    ensures IsGrid(g', h, w)
    ensures forall r, c :: 0 <= r < h && 0 <= c < w ==> g'[r][c] == (g[r][c] || (r == dst && g[src][c]))
  {
    g[dst := seq(w, c requires 0 <= c < w => g[dst][c] || g[src][c])]
  }

  /** mask[:, dst] = mask[:, dst] | mask[:, src] */
  function OrColumnInto(g: Grid<bool>, h: nat, w: nat, dst: nat, src: nat): (g': Grid<bool>)
    requires IsGrid(g, h, w) && dst < w && src < w
    ensures IsGrid(g', h, w)
    ensures forall r, c :: 0 <= r < h && 0 <= c < w ==> g'[r][c] == (g[r][c] || (c == dst && g[r][src]))
  {
    seq(h, r requires 0 <= r < h => g[r][dst := g[r][dst] || g[r][src]])
  }

  /** The two row steps (top, then bottom); they need at least two rows. */
  function RowSteps(g: Grid<bool>, h: nat, w: nat): (g': Grid<bool>)
    requires IsGrid(g, h, w) && h >= 2
    ensures IsGrid(g', h, w)
  {
    OrRowInto(OrRowInto(g, h, w, 0, 1), h, w, h - 1, h - 2)
  }

  /** The two column steps (left, then right); they need at least two columns. */
  function ColumnSteps(g: Grid<bool>, h: nat, w: nat): (g': Grid<bool>)
    requires IsGrid(g, h, w) && w >= 2
    ensures IsGrid(g', h, w)
  {
    OrColumnInto(OrColumnInto(g, h, w, 0, 1), h, w, w - 1, w - 2)
  }

  /** The mask as the four steps leave it, stopping where numpy would raise an IndexError. */
  function EnforcedEdges(g: Grid<bool>, h: nat, w: nat): (g': Grid<bool>)
    requires IsGrid(g, h, w)
    ensures IsGrid(g', h, w)
  {
    if h < 2 then g
    else if w < 2 then RowSteps(g, h, w)
    else ColumnSteps(RowSteps(g, h, w), h, w)
  }

  /** Row dst is true wherever row src is. */
  predicate RowCovers(g: Grid<bool>, h: nat, w: nat, dst: nat, src: nat)
    requires IsGrid(g, h, w) && dst < h && src < h
  {
    forall c :: 0 <= c < w && g[src][c] ==> g[dst][c]
  }

  /** Column dst is true wherever column src is. */
  predicate ColumnCovers(g: Grid<bool>, h: nat, w: nat, dst: nat, src: nat)
    requires IsGrid(g, h, w) && dst < w && src < w
  {
    forall r :: 0 <= r < h && g[r][src] ==> g[r][dst]
  }

  /** Cells strictly inside the frame are never changed. */
  lemma EdgesChangeOnlyBorder(g: Grid<bool>, h: nat, w: nat, r: nat, c: nat)
    requires IsGrid(g, h, w) && 0 < r < h - 1 && 0 < c < w - 1
    ensures EnforcedEdges(g, h, w)[r][c] == g[r][c]
  {
  }

  /** Cells only go from false to true. */
  lemma EdgesOnlyAdd(g: Grid<bool>, h: nat, w: nat, r: nat, c: nat)
    requires IsGrid(g, h, w) && r < h && c < w && g[r][c]
    ensures EnforcedEdges(g, h, w)[r][c]
  {
  }

  /** After a successful run each border row and column contains its inner neighbour. */
  lemma EdgesContainNeighbours(g: Grid<bool>, h: nat, w: nat)
    requires IsGrid(g, h, w) && h >= 2 && w >= 2
    ensures RowCovers(EnforcedEdges(g, h, w), h, w, 0, 1)
    ensures RowCovers(EnforcedEdges(g, h, w), h, w, h - 1, h - 2)
    ensures ColumnCovers(EnforcedEdges(g, h, w), h, w, 0, 1)
    ensures ColumnCovers(EnforcedEdges(g, h, w), h, w, w - 1, w - 2)
  {
  }

  /** A row step whose destination already covers its source changes nothing. */
  lemma OrRowIntoCovered(g: Grid<bool>, h: nat, w: nat, dst: nat, src: nat)
    requires IsGrid(g, h, w) && dst < h && src < h && RowCovers(g, h, w, dst, src)
    ensures OrRowInto(g, h, w, dst, src) == g
  {
    var g' := OrRowInto(g, h, w, dst, src);
    forall r | 0 <= r < h
      ensures g'[r] == g[r]
    {
    }
  }

  /** A column step whose destination already covers its source changes nothing. */
  lemma OrColumnIntoCovered(g: Grid<bool>, h: nat, w: nat, dst: nat, src: nat)
    requires IsGrid(g, h, w) && dst < w && src < w && ColumnCovers(g, h, w, dst, src)
    ensures OrColumnInto(g, h, w, dst, src) == g
  {
    var g' := OrColumnInto(g, h, w, dst, src);
    forall r | 0 <= r < h
      ensures g'[r] == g[r]
    {
    }
  }

  /** Running the operation a second time changes nothing. */
  lemma {:induction false} EdgesIdempotent(g: Grid<bool>, h: nat, w: nat)
    requires IsGrid(g, h, w)
    ensures EnforcedEdges(EnforcedEdges(g, h, w), h, w) == EnforcedEdges(g, h, w)
  {
    var e := EnforcedEdges(g, h, w);
    if h >= 2 && w >= 2 {
      EdgesContainNeighbours(g, h, w);
      OrRowIntoCovered(e, h, w, 0, 1);
      OrRowIntoCovered(e, h, w, h - 1, h - 2);
      OrColumnIntoCovered(e, h, w, 0, 1);
      OrColumnIntoCovered(e, h, w, w - 1, w - 2);
    } else if h >= 2 {
      assert RowCovers(e, h, w, 0, 1) && RowCovers(e, h, w, h - 1, h - 2);
      OrRowIntoCovered(e, h, w, 0, 1);
      OrRowIntoCovered(e, h, w, h - 1, h - 2);
    }
  }

  /** One row step in place. */
  method OrRowInPlace(mask: array2<bool>, dst: nat, src: nat)
    requires dst < mask.Length0 && src < mask.Length0 && dst != src
    modifies mask
    ensures Snapshot(mask) == OrRowInto(old(Snapshot(mask)), mask.Length0, mask.Length1, dst, src)
  {
    ghost var g := Snapshot(mask);
    forall c | 0 <= c < mask.Length1 {
      mask[dst, c] := mask[dst, c] || mask[src, c];
    }
    SnapshotIs(mask, OrRowInto(g, mask.Length0, mask.Length1, dst, src));
  }

  /** One column step in place. */
  method OrColumnInPlace(mask: array2<bool>, dst: nat, src: nat)
    requires dst < mask.Length1 && src < mask.Length1 && dst != src
    modifies mask
    ensures Snapshot(mask) == OrColumnInto(old(Snapshot(mask)), mask.Length0, mask.Length1, dst, src)
  {
    ghost var g := Snapshot(mask);
    forall r | 0 <= r < mask.Length0 {
      mask[r, dst] := mask[r, dst] || mask[r, src];
    }
    SnapshotIs(mask, OrColumnInto(g, mask.Length0, mask.Length1, dst, src));
  }

  /** In place on the array; ok is false exactly where numpy would raise an IndexError. */
  method EnforceEdgeConnectivity(mask: array2<bool>) returns (ok: bool)
    modifies mask
    ensures ok <==> mask.Length0 >= 2 && mask.Length1 >= 2
    ensures Snapshot(mask) == EnforcedEdges(old(Snapshot(mask)), mask.Length0, mask.Length1)
  {
    var h, w := mask.Length0, mask.Length1;
    if h < 2 {
      return false;
    }
    OrRowInPlace(mask, 0, 1);
    OrRowInPlace(mask, h - 1, h - 2);
    if w < 2 {
      return false;
    }
    OrColumnInPlace(mask, 0, 1);
    OrColumnInPlace(mask, w - 1, w - 2);
    ok := true;
  }
}
