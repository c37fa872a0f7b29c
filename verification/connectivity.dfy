/**
 4-connected reachability through pixels of one value: the relation that
 ImageJ's FloodFiller.fill follows and that defines which background pixels
 `fillHoles` in OrganoidArea.py keeps as background.
 */
module Connectivity {
  import opened Images

  /** `path` is a non-empty 4-connected walk whose every pixel lies in `img` and has value `v`. */
  ghost predicate IsWalk(img: Image, v: int, path: seq<Point>) {
    && |path| > 0
    && (forall i :: 0 <= i < |path| ==> InBounds(img, path[i]) && At(img, path[i]) == v)
    && (forall i :: 0 < i < |path| ==> Adjacent(path[i - 1], path[i]))
  }

  /** `b` can be reached from `a` by a 4-connected walk through `v`-valued pixels. */
  ghost predicate Connected(img: Image, v: int, a: Point, b: Point) {
    exists path :: IsWalk(img, v, path) && path[0] == a && path[|path| - 1] == b
  }

  /** `p` is joined to some pixel of the image border through background (0) pixels. */
  ghost predicate BorderConnected(img: Image, p: Point) {
    exists b :: OnBorder(img, b) && Connected(img, Background, b, p)
  }

  /** Every in-bounds `v`-neighbour of `p` belongs to `s`. */
  ghost predicate Closed(img: Image, v: int, s: set<Point>, p: Point) {
    forall q :: q in Neighbours(p) && InBounds(img, q) && At(img, q) == v ==> q in s
  }

  /** Both ends of a walk are in bounds and carry the walk's value. */
  lemma ConnectedEnds(img: Image, v: int, a: Point, b: Point)
    requires Connected(img, v, a, b)
    ensures InBounds(img, a) && At(img, a) == v
    ensures InBounds(img, b) && At(img, b) == v
  {
    var path :| IsWalk(img, v, path) && path[0] == a && path[|path| - 1] == b;
    assert InBounds(img, path[|path| - 1]);
  }

  /** A `v`-pixel is connected to itself. */
  lemma ConnectedSelf(img: Image, v: int, a: Point)
    requires InBounds(img, a) && At(img, a) == v
    ensures Connected(img, v, a, a)
  {
    assert IsWalk(img, v, [a]);
  }

  /** A walk can be extended by one adjacent `v`-pixel. */
  lemma ConnectedStep(img: Image, v: int, a: Point, q: Point, n: Point)
    requires Connected(img, v, a, q)
    requires Adjacent(q, n) && InBounds(img, n) && At(img, n) == v
    ensures Connected(img, v, a, n)
  {
    var path :| IsWalk(img, v, path) && path[0] == a && path[|path| - 1] == q;
    var longer := path + [n];
    forall i | 0 <= i < |longer|
      ensures InBounds(img, longer[i]) && At(img, longer[i]) == v
    {
      if i < |path| {
        assert longer[i] == path[i];
      }
    }
    forall i | 0 < i < |longer|
      ensures Adjacent(longer[i - 1], longer[i])
    {
      if i < |path| {
        assert longer[i - 1] == path[i - 1] && longer[i] == path[i];
      } else {
        assert longer[i - 1] == q && longer[i] == n;
      }
    }
    assert IsWalk(img, v, longer);
  }

  /** Walks in `a` survive in `b` when every `v`-pixel of `a` is a `v`-pixel of `b`. */
  lemma ConnectedTransfer(a: Image, b: Image, v: int, s: Point, p: Point)
    requires forall q :: InBounds(a, q) && At(a, q) == v ==> InBounds(b, q) && At(b, q) == v
    requires Connected(a, v, s, p)
    ensures Connected(b, v, s, p)
  {
    var path :| IsWalk(a, v, path) && path[0] == s && path[|path| - 1] == p;
    assert IsWalk(b, v, path);
  }

  /** Every pixel of a walk that starts on the border is itself border-connected. */
  lemma BorderWalkPixels(img: Image, b: Point, path: seq<Point>, i: int)
    requires OnBorder(img, b)
    requires IsWalk(img, Background, path) && path[0] == b
    requires 0 <= i < |path|
    ensures BorderConnected(img, path[i])
  {
    var prefix := path[..i + 1];
    assert IsWalk(img, Background, prefix);
    assert prefix[|prefix| - 1] == path[i];
  }

  /**
   A set that contains `a` and is closed under `v`-adjacency contains every
   pixel connected to `a`: the completeness half of flood fill.
   */
  lemma ClosedContainsComponent(img: Image, v: int, s: set<Point>, a: Point, p: Point)
    requires a in s
    requires forall q {:trigger Closed(img, v, s, q)} :: q in s ==> Closed(img, v, s, q)
    requires Connected(img, v, a, p)
    ensures p in s
  {
    var path :| IsWalk(img, v, path) && path[0] == a && path[|path| - 1] == p;
    var i := 0;
    while i < |path| - 1
      invariant 0 <= i < |path|
      invariant path[i] in s
    {
      assert Adjacent(path[i], path[i + 1]);
      assert Closed(img, v, s, path[i]);
      i := i + 1;
    }
  }

  /** The in-bounds pixels of value `v`, as a finite set. */
  ghost function PixelsOf(img: Image, v: int): (s: set<Point>)
    ensures forall p :: p in s <==> InBounds(img, p) && At(img, p) == v
  {
    var s := set y, x | 0 <= y < |img| && 0 <= x < |img[y]| && img[y][x] == v :: Point(x, y);
    assert forall p :: InBounds(img, p) && At(img, p) == v ==> p in s by {
      forall p | InBounds(img, p) && At(img, p) == v
        ensures p in s
      {
        assert p == Point(p.x, p.y);
      }
    }
    s
  }

  /** The pixels connected to `a` through `v`-pixels, as a finite set. */
  ghost function Component(img: Image, v: int, a: Point): (s: set<Point>)
    ensures forall p :: p in s <==> InBounds(img, p) && Connected(img, v, a, p)
  {
    var s := set y, x | 0 <= y < |img| && 0 <= x < |img[y]| && Connected(img, v, a, Point(x, y)) :: Point(x, y);
    assert forall p :: InBounds(img, p) && Connected(img, v, a, p) ==> p in s by {
      forall p | InBounds(img, p) && Connected(img, v, a, p)
        ensures p in s
      {
        assert p == Point(p.x, p.y);
      }
    }
    s
  }
}
