/**
 The global binarisation at the end of `getMask2D` in OrganoidArea.py: every
 sample at or above the Triangle threshold becomes foreground (255), every
 other sample background (0). The threshold itself is chosen by ImageJ's
 AutoThresholder and is a parameter here.
 */
module Thresholding {
  import opened Images

  /** The value a sample takes under threshold `thresh`. */
  function Cut(v: int, thresh: int): int {
    if v >= thresh then Foreground else Background
  }

  /** The whole binarised image, as a reference for the loop below. */
  function Binarised(g: Image, thresh: int): Image {
    seq(|g|, y requires 0 <= y < |g| =>
      seq(|g[y]|, x requires 0 <= x < |g[y]| => Cut(g[y][x], thresh)))
  }

  /**
   The loop over every pixel in ImageJ's row-major index order: the result is
   binary, the same size as `g`, and foreground exactly where `g` is at or
   above `thresh`.
   */
  method Binarise(g: Image, thresh: int) returns (r: Image)
    ensures r == Binarised(g, thresh)
    ensures SameShape(r, g) && IsBinary(r)
    ensures forall p :: InBounds(g, p) ==> (At(r, p) == Foreground <==> At(g, p) >= thresh)
  {
    r := [];
    var y := 0;
    while y < |g|
      invariant 0 <= y <= |g|
      invariant |r| == y
      invariant forall j :: 0 <= j < y ==> r[j] == Binarised(g, thresh)[j]
    {
      var row: seq<int> := [];
      var x := 0;
      while x < |g[y]|
        invariant 0 <= x <= |g[y]|
        invariant |row| == x
        invariant forall i :: 0 <= i < x ==> row[i] == Cut(g[y][i], thresh)
      {
        row := row + [Cut(g[y][x], thresh)];
        x := x + 1;
      }
      r := r + [row];
      y := y + 1;
    }
  }

  /** Thresholding a mask it produced again, at any threshold in 1..255, changes nothing. */
  lemma BinarisedIdempotent(g: Image, thresh: int)
    requires 0 < thresh <= 255
    ensures Binarised(Binarised(g, thresh), thresh) == Binarised(g, thresh)
  {
    var b := Binarised(g, thresh);
    forall y | 0 <= y < |b|
      ensures Binarised(b, thresh)[y] == b[y]
    {
    }
  }

  /** A higher threshold never adds foreground. */
  lemma HigherThresholdShrinksForeground(g: Image, t1: int, t2: int, p: Point)
    requires t1 <= t2 && InBounds(g, p)
    ensures At(Binarised(g, t2), p) == Foreground ==> At(Binarised(g, t1), p) == Foreground
  {
  }
}
