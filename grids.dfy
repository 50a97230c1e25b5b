/** Rasters as values, and the bridge between in-place arrays and those values. */
module Grids {

  /** A raster as rows of pixels: g[r][c] is the pixel in row r, column c. */
  type Grid<T> = seq<seq<T>>

  /** One channel of an unsigned 8-bit image (numpy uint8). */
  type Byte = x: int | 0 <= x < 0x100

  /** One channel of an unsigned 16-bit image (numpy uint16). */
  type UInt16 = x: int | 0 <= x < 0x1_0000

  /** g is a rectangular raster of h rows and w columns. */
  predicate IsGrid<T>(g: Grid<T>, h: nat, w: nat) {
    |g| == h && forall r :: 0 <= r < h ==> |g[r]| == w
  }

  /** Two rasters have the same height and width. */
  predicate SameShape<T, U>(a: Grid<T>, b: Grid<U>) {
    |a| == |b| && forall r :: 0 <= r < |a| ==> |a[r]| == |b[r]|
  }

  /** The current contents of an array as a raster value. */
  function Snapshot<T>(a: array2<T>): (g: Grid<T>)
    reads a
    ensures IsGrid(g, a.Length0, a.Length1)
    ensures forall r, c :: 0 <= r < a.Length0 && 0 <= c < a.Length1 ==> g[r][c] == a[r, c]
  {
    seq(a.Length0, r requires 0 <= r < a.Length0 reads a =>
      seq(a.Length1, c requires 0 <= c < a.Length1 reads a => a[r, c]))
  }

  /** An array whose cells agree with a raster of its shape has that raster as its snapshot. */
  lemma SnapshotIs<T>(a: array2<T>, g: Grid<T>)
    requires IsGrid(g, a.Length0, a.Length1)
    requires forall r, c :: 0 <= r < a.Length0 && 0 <= c < a.Length1 ==> a[r, c] == g[r][c]
    ensures Snapshot(a) == g
  {
    var s := Snapshot(a);
    forall r | 0 <= r < a.Length0
      ensures s[r] == g[r]
    {
    }
  }

  /** A fresh array holding a raster (numpy's array construction from nested lists). */
  method FromGrid<T>(g: Grid<T>, h: nat, w: nat) returns (a: array2<T>)
    requires IsGrid(g, h, w)
    ensures fresh(a) && a.Length0 == h && a.Length1 == w
    ensures Snapshot(a) == g
  {
    a := new T[h, w]((r, c) requires 0 <= r < h && 0 <= c < w => g[r][c]);
    SnapshotIs(a, g);
  }
}
