/**
 Raster images as the ImageJ processors of OrganoidArea.py hold them: a
 rectangular grid of integer samples, addressed by column x and row y, with
 4-connected pixel adjacency (the neighbourhood ImageJ's FloodFiller.fill uses).
 */
module Images {

  /** A pixel coordinate: column `x`, row `y`. */
  datatype Point = Point(x: int, y: int)

  /** Rows of samples; the sample at column x of row y is `img[y][x]`. */
  type Image = seq<seq<int>>

  /** The value `fillHoles` paints as its temporary flood-fill marker. */
  const Sentinel := 127
  /** Foreground and background of a binary mask. */
  const Foreground := 255
  const Background := 0

  function Height(img: Image): nat {
    |img|
  }

  function Width(img: Image): nat {
    if |img| == 0 then 0 else |img[0]|
  }

  /** What every ImageJ processor is: at least one row and one column, every row equally wide. */
  predicate IsImage(img: Image) {
    && |img| > 0
    && |img[0]| > 0
    && forall y :: 0 <= y < |img| ==> |img[y]| == |img[0]|
  }

  /** `a` and `b` have the same dimensions. */
  predicate SameShape(a: Image, b: Image) {
    && |a| == |b|
    && forall y :: 0 <= y < |a| ==> |a[y]| == |b[y]|
  }

  predicate InBounds(img: Image, p: Point) {
    0 <= p.y < |img| && 0 <= p.x < |img[p.y]|
  }

  function At(img: Image, p: Point): int
    requires InBounds(img, p)
  {
    img[p.y][p.x]
  }

  /** Writes `v` at `p` (ImageJ's `set`/`putPixel`), leaving every other pixel alone. */
  function Update(img: Image, p: Point, v: int): (r: Image)
    requires InBounds(img, p)
    ensures SameShape(r, img)
    ensures At(r, p) == v
    ensures forall q :: InBounds(img, q) && q != p ==> At(r, q) == At(img, q)
  {
    img[p.y := img[p.y][p.x := v]]
  }

  /** Every pixel is 0 or 255. */
  ghost predicate IsBinary(img: Image) {
    forall p :: InBounds(img, p) ==> At(img, p) == Background || At(img, p) == Foreground
  }

  /** Every pixel is an unsigned 8-bit sample. */
  ghost predicate IsByteImage(img: Image) {
    forall p :: InBounds(img, p) ==> 0 <= At(img, p) < 256
  }

  /** `p` lies in the left or right column or the top or bottom row. */
  predicate OnBorder(img: Image, p: Point) {
    && InBounds(img, p)
    && (p.x == 0 || p.x == Width(img) - 1 || p.y == 0 || p.y == Height(img) - 1)
  }

  /** The four pixels sharing an edge with `p`: left, right, up, down. */
  function Neighbours(p: Point): seq<Point> {
    [Point(p.x - 1, p.y), Point(p.x + 1, p.y), Point(p.x, p.y - 1), Point(p.x, p.y + 1)]
  }

  predicate Adjacent(p: Point, q: Point) {
    q in Neighbours(p)
  }

  /** Two images that agree pixel by pixel are the same image. */
  lemma Extensionality(a: Image, b: Image)
    requires SameShape(a, b)
    requires forall p :: InBounds(a, p) ==> At(a, p) == At(b, p)
    ensures a == b
  {
    forall y | 0 <= y < |a|
      ensures a[y] == b[y]
    {
      forall x | 0 <= x < |a[y]|
        ensures a[y][x] == b[y][x]
      {
        assert InBounds(a, Point(x, y));
      }
    }
  }
}
