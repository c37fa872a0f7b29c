/**
 The raster half of `getMask2D` in OrganoidArea.py, from the convolved image
 on: threshold, fill holes, cut along the watershed lines. The dilation loop
 runs `int(sigma)` times and the script passes sigma = 0.75, so it runs no
 pass and does not appear here.
 */
module Segmentation {
  import opened Images
  import opened Options
  import opened Connectivity
  import opened Thresholding
  import opened HoleFilling
  import opened Watershed

  /** What ImageJ's MaximumFinder returns in SEGMENTED mode: nothing, or a binary mask of the input's size. */
  ghost predicate Segmenter(segment: Image -> Option<Image>) {
    forall m :: segment(m).Some? ==> SameShape(segment(m).value, m) && IsBinary(segment(m).value)
  }

  /** `p` is not on a watershed dividing line of `lines` (no segmentation means no line). */
  ghost predicate OffLines(lines: Option<Image>, p: Point) {
    lines.Some? ==> InBounds(lines.value, p) && At(lines.value, p) == Foreground
  }

  /**
   The mask `getMask2D` returns, given the convolved image `g`, the Triangle
   threshold `thresh`, and the library segmentation `segment`: it is binary
   and the size of `g`, and a pixel is foreground exactly when it is
   foreground after thresholding and hole filling and lies on no dividing line.
   */
  method Mask(g: Image, thresh: int, segment: Image -> Option<Image>) returns (r: Image)
    requires IsImage(g) && Segmenter(segment)
    ensures SameShape(r, g) && IsBinary(r)
    ensures forall p :: InBounds(g, p) ==>
              (At(r, p) == Foreground <==>
                 At(HoleFilled(Binarised(g, thresh)), p) == Foreground
                 && OffLines(segment(HoleFilled(Binarised(g, thresh))), p))
    ensures forall p :: InBounds(g, p) && At(g, p) >= thresh && OffLines(segment(HoleFilled(Binarised(g, thresh))), p) ==>
              At(r, p) == Foreground
  {
    var b := Binarise(g, thresh);
    var filled := FillHoles(b);
    var lines := segment(filled);
    r := Intersect(filled, lines);
  }
}
