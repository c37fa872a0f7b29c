/**
 `fillHoles` of OrganoidArea.py: flood-fill every background (0) region that
 touches the image border with the sentinel 127, then map 127 to background
 and everything else to foreground, so enclosed background pockets become
 foreground.
 */
module HoleFilling {
  import opened Images
  import opened Connectivity
  import opened FloodFill

  /**
   The value `fillHoles` leaves at `p`: background for a sentinel pixel and
   for a background pixel joined to the border through background; foreground
   for everything else.
   */
  ghost function FilledPixel(g: Image, p: Point): int
    requires InBounds(g, p)
  {
    if At(g, p) == Sentinel || (At(g, p) == Background && BorderConnected(g, p)) then Background else Foreground
  }

  /** The whole image `fillHoles` produces from `g`, defined by reachability. */
  ghost function HoleFilled(g: Image): (r: Image)
    ensures SameShape(r, g)
    ensures forall p :: InBounds(g, p) ==> At(r, p) == FilledPixel(g, p)
  {
    seq(|g|, y requires 0 <= y < |g| =>
      seq(|g[y]|, x requires 0 <= x < |g[y]| => FilledPixel(g, Point(x, y))))
  }

  /**
   What holds while the border is scanned: `m` is `g` with the set `marked`
   painted with the sentinel, `marked` holds only border-connected background
   pixels, and it is closed under background adjacency.
   */
  ghost predicate Scanned(g: Image, m: Image, marked: set<Point>) {
    && SameShape(m, g)
    && (forall p {:trigger At(m, p)} :: InBounds(g, p) ==> At(m, p) == (if p in marked then Sentinel else At(g, p)))
    && (forall p {:trigger BorderConnected(g, p)} :: p in marked ==> InBounds(g, p) && At(g, p) == Background && BorderConnected(g, p))
    && (forall p {:trigger Closed(g, Background, marked, p)} :: p in marked ==> Closed(g, Background, marked, p))
  }

  /** A background pixel `p` has been reached by the fill. */
  ghost predicate Seeded(g: Image, marked: set<Point>, p: Point) {
    InBounds(g, p) && At(g, p) == Background ==> p in marked
  }

  /** Reached pixels stay reached as `marked` grows. */
  lemma SeededGrows(g: Image, s: set<Point>, t: set<Point>)
    requires s <= t
    ensures forall p :: Seeded(g, s, p) ==> Seeded(g, t, p)
  {
  }

  /** Every pixel the fill reaches from a border seed is border-connected background in `g`. */
  lemma ComponentIsBorderBackground(g: Image, m: Image, marked: set<Point>, seed: Point, p: Point)
    requires Scanned(g, m, marked) && OnBorder(g, seed)
    requires p in Component(m, Background, seed)
    ensures InBounds(g, p) && At(g, p) == Background && BorderConnected(g, p)
  {
    forall q | InBounds(m, q) && At(m, q) == Background
      ensures InBounds(g, q) && At(g, q) == Background
    {
      assert At(m, q) == (if q in marked then Sentinel else At(g, q));
    }
    ConnectedTransfer(m, g, Background, seed, p);
    ConnectedEnds(g, Background, seed, p);
  }

  /** Adding a seed's background component keeps `marked` closed under background adjacency. */
  lemma ComponentKeepsClosed(g: Image, m: Image, marked: set<Point>, seed: Point, p: Point)
    requires Scanned(g, m, marked)
    requires p in marked + Component(m, Background, seed)
    ensures Closed(g, Background, marked + Component(m, Background, seed), p)
  {
    var marked' := marked + Component(m, Background, seed);
    if p in marked {
      assert Closed(g, Background, marked, p);
      ClosedGrows(g, Background, marked, marked', p);
    } else {
      forall q | q in Neighbours(p) && InBounds(g, q) && At(g, q) == Background
        ensures q in marked'
      {
        if q !in marked {
          assert At(m, q) == (if q in marked then Sentinel else At(g, q));
          ConnectedStep(m, Background, seed, p, q);
        }
      }
    }
  }

  /** Filling from a still-background border pixel adds its whole background component to `marked`. */
  lemma ScannedStep(g: Image, m: Image, marked: set<Point>, seed: Point, m': Image)
    requires Scanned(g, m, marked) && OnBorder(g, seed)
    requires InBounds(m, seed) && At(m, seed) == Background
    requires SameShape(m', m)
    requires forall p :: InBounds(m, p) ==>
               At(m', p) == (if Connected(m, Background, seed, p) then Sentinel else At(m, p))
    ensures Scanned(g, m', marked + Component(m, Background, seed))
    ensures seed in marked + Component(m, Background, seed)
  {
    var marked' := marked + Component(m, Background, seed);
    ConnectedSelf(m, Background, seed);
    forall p | p in marked'
      ensures InBounds(g, p) && At(g, p) == Background && BorderConnected(g, p)
    {
      if p !in marked {
        ComponentIsBorderBackground(g, m, marked, seed, p);
      } else {
        assert BorderConnected(g, p);
      }
    }
    forall p | p in marked'
      ensures Closed(g, Background, marked', p)
    {
      ComponentKeepsClosed(g, m, marked, seed, p);
    }
    forall p | InBounds(g, p)
      ensures At(m', p) == (if p in marked' then Sentinel else At(g, p))
    {
      assert At(m, p) == (if p in marked then Sentinel else At(g, p));
    }
  }

  /** `ff.fill(x, y)` guarded by `getPixel(x, y) == background`, for one border pixel. */
  method FillFrom(g: Image, m: Image, ghost marked: set<Point>, seed: Point)
    returns (m': Image, ghost marked': set<Point>)
    requires Scanned(g, m, marked) && OnBorder(g, seed)
    ensures Scanned(g, m', marked') && marked <= marked'
    ensures Seeded(g, marked', seed)
    ensures SameShape(m', m) && At(m', seed) != Background
    ensures forall p :: InBounds(m, p) && At(m, p) != Background ==> At(m', p) == At(m, p)
  {
    if At(m, seed) == Background {
      m' := Fill(m, seed, Sentinel);
      ScannedStep(g, m, marked, seed, m');
      marked' := marked + Component(m, Background, seed);
      forall p | InBounds(m, p) && At(m, p) != Background
        ensures At(m', p) == At(m, p)
      {
        if Connected(m, Background, seed, p) {
          ConnectedEnds(m, Background, seed, p);
        }
      }
    } else {
      m', marked' := m, marked;
    }
  }

  /** Once every border pixel is seeded, `marked` is exactly the border-connected background. */
  lemma ScanComplete(g: Image, m: Image, marked: set<Point>, p: Point)
    requires Scanned(g, m, marked)
    requires forall b :: OnBorder(g, b) ==> Seeded(g, marked, b)
    requires InBounds(g, p) && At(g, p) == Background && BorderConnected(g, p)
    ensures p in marked
  {
    var b :| OnBorder(g, b) && Connected(g, Background, b, p);
    ConnectedEnds(g, Background, b, p);
    assert Seeded(g, marked, b);
    ClosedContainsComponent(g, Background, marked, b, p);
  }

  /** The final pass of `fillHoles`: sentinel pixels become background, all others foreground. */
  function Remap(m: Image): (r: Image)
    ensures SameShape(r, m) && IsBinary(r)
    ensures forall p :: InBounds(m, p) ==> (At(r, p) == Background <==> At(m, p) == Sentinel)
  {
    seq(|m|, y requires 0 <= y < |m| =>
      seq(|m[y]|, x requires 0 <= x < |m[y]| => if m[y][x] == Sentinel then Background else Foreground))
  }

  /** The left and right border pixels of the first `n` rows are seeded. */
  ghost predicate SidesSeeded(g: Image, marked: set<Point>, n: int) {
    forall j :: 0 <= j < n ==> Seeded(g, marked, Point(0, j)) && Seeded(g, marked, Point(Width(g) - 1, j))
  }

  /** The top and bottom border pixels of the first `n` columns are seeded. */
  ghost predicate EndsSeeded(g: Image, marked: set<Point>, n: int) {
    forall i :: 0 <= i < n ==> Seeded(g, marked, Point(i, 0)) && Seeded(g, marked, Point(i, Height(g) - 1))
  }

  /** In the first `n` rows of `m`, the leftmost and rightmost pixels are no longer background. */
  predicate SidesCleared(g: Image, m: Image, n: int)
    requires IsImage(g) && SameShape(m, g) && n <= Height(g)
  {
    forall j :: 0 <= j < n ==> At(m, Point(0, j)) != Background && At(m, Point(Width(g) - 1, j)) != Background
  }

  /** In the first `n` columns of `m`, the top and bottom pixels are no longer background. */
  predicate EndsCleared(g: Image, m: Image, n: int)
    requires IsImage(g) && SameShape(m, g) && n <= Width(g)
  {
    forall i :: 0 <= i < n ==> At(m, Point(i, 0)) != Background && At(m, Point(i, Height(g) - 1)) != Background
  }

  /** Seeds the left and right columns, row by row: the first loop of `fillHoles`. */
  method ScanRows(g: Image) returns (m: Image, ghost marked: set<Point>)
    requires IsImage(g)
    ensures Scanned(g, m, marked)
    ensures SidesSeeded(g, marked, Height(g))
    ensures SameShape(m, g)
    ensures SidesCleared(g, m, Height(g))
  {
    var w, h := Width(g), Height(g);
    m, marked := g, {};
    var y := 0;
    while y < h
      invariant 0 <= y <= h
      invariant Scanned(g, m, marked)
      invariant SidesSeeded(g, marked, y)
      invariant SameShape(m, g) && SidesCleared(g, m, y)
    {
      ghost var before := marked;
      assert OnBorder(g, Point(0, y)) && OnBorder(g, Point(w - 1, y));
      m, marked := FillFrom(g, m, marked, Point(0, y));
      ghost var left := marked;
      m, marked := FillFrom(g, m, marked, Point(w - 1, y));
      SeededGrows(g, before, marked);
      SeededGrows(g, left, marked);
      y := y + 1;
    }
  }

  /** Seeds the top and bottom rows: the second loop of `fillHoles`. */
  method ScanColumns(g: Image, m0: Image, ghost marked0: set<Point>) returns (m: Image, ghost marked: set<Point>)
    requires IsImage(g) && Scanned(g, m0, marked0)
    ensures Scanned(g, m, marked) && marked0 <= marked
    ensures EndsSeeded(g, marked, Width(g))
    ensures SameShape(m, g) && EndsCleared(g, m, Width(g))
  {
    var w, h := Width(g), Height(g);
    m, marked := m0, marked0;
    var x := 0;
    while x < w
      invariant 0 <= x <= w
      invariant Scanned(g, m, marked) && marked0 <= marked
      invariant EndsSeeded(g, marked, x)
      invariant SameShape(m, g) && EndsCleared(g, m, x)
    {
      ghost var before := marked;
      assert OnBorder(g, Point(x, 0)) && OnBorder(g, Point(x, h - 1));
      m, marked := FillFrom(g, m, marked, Point(x, 0));
      ghost var top := marked;
      m, marked := FillFrom(g, m, marked, Point(x, h - 1));
      SeededGrows(g, before, marked);
      SeededGrows(g, top, marked);
      x := x + 1;
    }
  }

  /**
   `fillHoles`: the result is binary and the same size as `g`; a background
   pixel stays background exactly when it is 4-connected through background
   to the border, so an enclosed hole becomes foreground; foreground is never
   cleared.
   */
  method FillHoles(g: Image) returns (r: Image)
    requires IsImage(g)
    ensures r == HoleFilled(g)
    ensures SameShape(r, g) && IsBinary(r)
    ensures forall p :: InBounds(g, p) && At(g, p) == Background ==>
              (At(r, p) == Background <==> BorderConnected(g, p))
    ensures forall p :: InBounds(g, p) && At(g, p) == Foreground ==> At(r, p) == Foreground
  {
    var m, marked := ScanRows(g);
    ghost var rowsMarked := marked;
    m, marked := ScanColumns(g, m, marked);
    forall b | OnBorder(g, b)
      ensures Seeded(g, marked, b)
    {
      if b.x == 0 || b.x == Width(g) - 1 {
        assert b == Point(0, b.y) || b == Point(Width(g) - 1, b.y);
        assert Seeded(g, rowsMarked, b);
        SeededGrows(g, rowsMarked, marked);
      } else {
        assert b == Point(b.x, 0) || b == Point(b.x, Height(g) - 1);
        assert Seeded(g, marked, Point(b.x, 0)) && Seeded(g, marked, Point(b.x, Height(g) - 1));
      }
    }
    r := Remap(m);
    forall p | InBounds(g, p)
      ensures At(r, p) == FilledPixel(g, p)
    {
      assert At(m, p) == (if p in marked then Sentinel else At(g, p));
      if p in marked {
        assert BorderConnected(g, p);
        assert At(g, p) == Background;
      } else if At(g, p) == Background && BorderConnected(g, p) {
        ScanComplete(g, m, marked, p);
      }
    }
    Extensionality(r, HoleFilled(g));
  }

  /** A hole-free binary mask (every background pixel reaches the border) is left unchanged. */
  lemma HoleFreeIsFixed(g: Image)
    requires IsBinary(g)
    requires forall p :: InBounds(g, p) && At(g, p) == Background ==> BorderConnected(g, p)
    ensures HoleFilled(g) == g
  {
    Extensionality(HoleFilled(g), g);
  }

  /** The output of hole filling has no holes left, when the input holds no sentinel pixel. */
  lemma HoleFilledHasNoHoles(g: Image)
    requires forall p :: InBounds(g, p) ==> At(g, p) != Sentinel
    ensures forall p :: InBounds(g, p) && At(HoleFilled(g), p) == Background ==> BorderConnected(HoleFilled(g), p)
  {
    var f := HoleFilled(g);
    forall p | InBounds(g, p) && At(f, p) == Background
      ensures BorderConnected(f, p)
    {
      var b :| OnBorder(g, b) && Connected(g, Background, b, p);
      var path :| IsWalk(g, Background, path) && path[0] == b && path[|path| - 1] == p;
      forall i | 0 <= i < |path|
        ensures InBounds(f, path[i]) && At(f, path[i]) == Background
      {
        BorderWalkPixels(g, b, path, i);
      }
      assert IsWalk(f, Background, path);
      assert OnBorder(f, b);
    }
  }

  /** Filling twice is filling once, for any input without sentinel pixels. */
  lemma HoleFillingIdempotent(g: Image)
    requires forall p :: InBounds(g, p) ==> At(g, p) != Sentinel
    ensures HoleFilled(HoleFilled(g)) == HoleFilled(g)
  {
    HoleFilledHasNoHoles(g);
    HoleFreeIsFixed(HoleFilled(g));
  }
}
