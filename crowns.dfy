/**
 * The crown count reported after segmentation (mask.py:176). As written it is
 * len(np.unique(labels)) - 1: the number of distinct label values, background
 * included, minus one for the background. That agrees with the number of
 * distinct non-zero labels only when label 0 occurs somewhere; a label map
 * with no background pixel (vegetation covering the whole frame) is counted one
 * short. An empty label map would be counted as -1, but an empty image fails
 * earlier in process_image (N.min() at mask.py:59 when the bands are not uint8).
 */
module CrownCount {
  import opened Grids

  /** np.unique(labels) as a set: every value that occurs in the label map. */
  function LabelValues(labels: Grid<int>): (s: set<int>)
    ensures forall r, c :: 0 <= r < |labels| && 0 <= c < |labels[r]| ==> labels[r][c] in s
    ensures forall x :: x in s ==> exists r, c :: 0 <= r < |labels| && 0 <= c < |labels[r]| && labels[r][c] == x
  {
    set r, c | 0 <= r < |labels| && 0 <= c < |labels[r]| :: labels[r][c]
  }

  /** len(np.unique(labels)) - 1, as mask.py:176 computes it. */
  function CrownCountAsWritten(labels: Grid<int>): (n: int)
    ensures -1 <= n <= CrownCount(labels)
  {
    |LabelValues(labels)| - 1
  }

  /** The number of distinct non-zero labels: the crowns of the label map. */
  function CrownCount(labels: Grid<int>): (n: nat)
    ensures n <= |LabelValues(labels)|
  {
    |LabelValues(labels) - {0}|
  }

  /** The count as written is the crown count exactly when the background label occurs. */
  lemma AsWrittenAgreesIffBackground(labels: Grid<int>)
    ensures CrownCountAsWritten(labels) == CrownCount(labels) <==> 0 in LabelValues(labels)
    ensures 0 !in LabelValues(labels) ==> CrownCountAsWritten(labels) == CrownCount(labels) - 1
  {
    var s := LabelValues(labels);
    if 0 in s {
      assert s == (s - {0}) + {0};
      assert |s| == |s - {0}| + 1;
    } else {
      assert s - {0} == s;
    }
  }

  /** The count is zero exactly when every pixel is background, e.g. after an empty vegetation mask. */
  lemma CrownCountZeroIffAllBackground(labels: Grid<int>)
    ensures CrownCount(labels) == 0 <==> forall r, c :: 0 <= r < |labels| && 0 <= c < |labels[r]| ==> labels[r][c] == 0
  {
    var s := LabelValues(labels) - {0};
    if r, c :| 0 <= r < |labels| && 0 <= c < |labels[r]| && labels[r][c] != 0 {
      assert labels[r][c] in s;
    } else {
      assert forall x :: x !in s;
      assert s == {};
    }
  }

  /** A one-pixel label map holding only crown 1: one crown, reported as zero. */
  lemma AsWrittenMissesFullyCoveredFrame()
    ensures CrownCount([[1]]) == 1
    ensures CrownCountAsWritten([[1]]) == 0
    ensures CrownCountAsWritten([]) == -1
  {
    assert LabelValues([]) == {};
    var labels: Grid<int> := [[1]];
    assert labels[0][0] == 1;
    assert LabelValues(labels) == {1};
  }

  /** Relabelling that keeps background and distinctness keeps the count (label identity is arbitrary). */
  lemma {:induction false} CrownCountIgnoresLabelIdentity(labels: Grid<int>, f: int -> int)
    requires f(0) == 0 && forall x, y :: f(x) == f(y) ==> x == y
    ensures CrownCount(Relabelled(labels, f)) == CrownCount(labels)
  {
    var g := Relabelled(labels, f);
    var s, t := LabelValues(labels) - {0}, LabelValues(g) - {0};
    var image := set x | x in s :: f(x);
    forall y | y in t
      ensures y in image
    {
      var r, c :| 0 <= r < |g| && 0 <= c < |g[r]| && g[r][c] == y;
      assert labels[r][c] in s && f(labels[r][c]) == y;
    }
    forall x | x in s
      ensures f(x) in t
    {
      var r, c :| 0 <= r < |labels| && 0 <= c < |labels[r]| && labels[r][c] == x;
      assert g[r][c] == f(x);
    }
    assert t == image;
    MappedCardinality(s, f);
  }

  /** The label map with every value passed through f. */
  function Relabelled(labels: Grid<int>, f: int -> int): (g: Grid<int>)
    ensures SameShape(g, labels)
  {
    seq(|labels|, r requires 0 <= r < |labels| =>
      seq(|labels[r]|, c requires 0 <= c < |labels[r]| => f(labels[r][c])))
  }

  /** An injective image of a finite set has the same size. */
  lemma {:induction false} MappedCardinality(s: set<int>, f: int -> int)
    requires forall x, y :: f(x) == f(y) ==> x == y
    ensures |set x | x in s :: f(x)| == |s|
    decreases |s|
  {
    if x :| x in s {
      MappedCardinality(s - {x}, f);
      var rest := set y | y in s - {x} :: f(y);
      assert (set y | y in s :: f(y)) == rest + {f(x)};
      assert f(x) !in rest;
    } else {
      assert forall y :: y !in s;
      assert s == {};
      assert (set y | y in s :: f(y)) == {};
    }
  }
}
