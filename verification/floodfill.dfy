/**
 ImageJ's FloodFiller.fill as `fillHoles` in OrganoidArea.py uses it: paint
 the 4-connected region of pixels that share the seed's value with the
 processor's current colour. Modelled with an explicit worklist.
 */
module FloodFill {
  import opened Images
  import opened Connectivity

  /** `r` is `m` with exactly the pixels of `filled` painted `colour`. */
  ghost predicate Painted(m: Image, r: Image, filled: set<Point>, colour: int) {
    && SameShape(r, m)
    && forall p {:trigger At(r, p)} :: InBounds(m, p) ==> At(r, p) == (if p in filled then colour else At(m, p))
  }

  /** Every filled pixel is a `target` pixel connected to `seed`. */
  ghost predicate Sound(m: Image, target: int, seed: Point, filled: set<Point>) {
    && seed in filled
    && filled <= PixelsOf(m, target)
    && forall p :: p in filled ==> Connected(m, target, seed, p)
  }

  /** Adding a new member of `pixels` to `filled` shrinks `pixels - filled` by one. */
  lemma RemoveOne(pixels: set<Point>, filled: set<Point>, n: Point)
    requires n in pixels && n !in filled
    ensures |pixels - (filled + {n})| == |pixels - filled| - 1
  {
    assert pixels - (filled + {n}) == (pixels - filled) - {n};
  }

  /** Neighbour `n` is filled whenever it is an in-bounds `target` pixel. */
  ghost predicate Handled(m: Image, target: int, filled: set<Point>, n: Point) {
    InBounds(m, n) && At(m, n) == target ==> n in filled
  }

  /** A pixel whose four neighbours are all handled is closed. */
  lemma ClosedFromNeighbours(m: Image, target: int, filled: set<Point>, q: Point)
    requires Handled(m, target, filled, Neighbours(q)[0]) && Handled(m, target, filled, Neighbours(q)[1])
    requires Handled(m, target, filled, Neighbours(q)[2]) && Handled(m, target, filled, Neighbours(q)[3])
    ensures Closed(m, target, filled, q)
  {
    forall n | n in Neighbours(q)
      ensures Handled(m, target, filled, n)
    {
      var i :| 0 <= i < 4 && Neighbours(q)[i] == n;
      assert i == 0 || i == 1 || i == 2 || i == 3;
    }
  }

  /** Closedness survives growing the set. */
  lemma ClosedGrows(m: Image, v: int, s: set<Point>, t: set<Point>, p: Point)
    requires s <= t && Closed(m, v, s, p)
    ensures Closed(m, v, t, p)
  {
  }

  /** Painting one more pixel keeps `r` in step with `filled`. */
  lemma PaintedStep(m: Image, r: Image, filled: set<Point>, colour: int, n: Point)
    requires Painted(m, r, filled, colour) && InBounds(m, n)
    ensures Painted(m, Update(r, n, colour), filled + {n}, colour)
  {
    var r' := Update(r, n, colour);
    forall p | InBounds(m, p)
      ensures At(r', p) == (if p in filled + {n} then colour else At(m, p))
    {
      if p != n {
        assert At(r', p) == At(r, p);
      }
    }
  }

  /** A `target` neighbour of a filled pixel may join the filled set. */
  lemma SoundStep(m: Image, target: int, seed: Point, filled: set<Point>, q: Point, n: Point)
    requires Sound(m, target, seed, filled)
    requires q in filled && Adjacent(q, n) && InBounds(m, n) && At(m, n) == target
    ensures Sound(m, target, seed, filled + {n})
  {
    ConnectedStep(m, target, seed, q, n);
  }

  /**
   One worklist step: if neighbour `n` of the popped pixel `q` still holds
   `target`, paint it and push it.
   */
  method Visit(m: Image, target: int, colour: int, seed: Point, q: Point, n: Point,
               r: Image, stack: seq<Point>, ghost filled: set<Point>)
    returns (r': Image, stack': seq<Point>, ghost filled': set<Point>)
    requires target != colour
    requires Painted(m, r, filled, colour) && Sound(m, target, seed, filled)
    requires q in filled && Adjacent(q, n)
    ensures Painted(m, r', filled', colour) && Sound(m, target, seed, filled')
    ensures filled <= filled' && forall p :: p in stack ==> p in stack'
    ensures forall p :: p in filled' ==> p in filled || p in stack'
    ensures forall p :: p in stack' ==> p in stack || p in filled'
    ensures Handled(m, target, filled', n)
    ensures 2 * |PixelsOf(m, target) - filled'| + |stack'| <= 2 * |PixelsOf(m, target) - filled| + |stack|
    ensures SameShape(r', r)
    ensures forall p :: InBounds(r, p) ==> At(r', p) == At(r, p) || (p == n && At(r', p) == colour)
  {
    if InBounds(r, n) && At(r, n) == target {
      assert n !in filled && n in PixelsOf(m, target);
      PaintedStep(m, r, filled, colour, n);
      SoundStep(m, target, seed, filled, q, n);
      RemoveOne(PixelsOf(m, target), filled, n);
      r' := Update(r, n, colour);
      stack' := stack + [n];
      filled' := filled + {n};
    } else {
      r', stack', filled' := r, stack, filled;
    }
  }

  /** What holds between iterations of the worklist loop. */
  ghost predicate Invariant(m: Image, target: int, colour: int, seed: Point,
                            r: Image, stack: seq<Point>, filled: set<Point>) {
    && target != colour
    && Painted(m, r, filled, colour)
    && Sound(m, target, seed, filled)
    && (forall p :: p in stack ==> p in filled)
    && (forall p {:trigger Closed(m, target, filled, p)} :: p in filled ==> Closed(m, target, filled, p) || p in stack)
  }

  /** After `q` is popped and closed, every filled pixel is closed or still pending. */
  lemma Reclose(m: Image, target: int, filled: set<Point>, filled': set<Point>,
                rest: seq<Point>, q: Point, stack': seq<Point>)
    requires forall p {:trigger Closed(m, target, filled, p)} :: p in filled ==> Closed(m, target, filled, p) || p in rest + [q]
    requires filled <= filled'
    requires forall p :: p in rest ==> p in stack'
    requires forall p :: p in filled' ==> p in filled || p in stack'
    requires Closed(m, target, filled', q)
    ensures forall p {:trigger Closed(m, target, filled', p)} :: p in filled' ==> Closed(m, target, filled', p) || p in stack'
  {
    forall p | p in filled'
      ensures Closed(m, target, filled', p) || p in stack'
    {
      if p in filled && p != q && p !in stack' {
        assert p !in rest;
        assert Closed(m, target, filled, p);
        ClosedGrows(m, target, filled, filled', p);
      }
    }
  }

  /** Pops one pixel off the worklist and visits its four neighbours. */
  method Step(m: Image, target: int, colour: int, seed: Point,
              r: Image, stack: seq<Point>, ghost filled: set<Point>)
    returns (r': Image, stack': seq<Point>, ghost filled': set<Point>)
    requires Invariant(m, target, colour, seed, r, stack, filled) && stack != []
    ensures Invariant(m, target, colour, seed, r', stack', filled')
    ensures 2 * |PixelsOf(m, target) - filled'| + |stack'| < 2 * |PixelsOf(m, target) - filled| + |stack|
    ensures SameShape(r', r)
  {
    var q := stack[|stack| - 1];
    var rest := stack[..|stack| - 1];
    assert stack == rest + [q];
    var nbrs := Neighbours(q);
    r', stack', filled' := Visit(m, target, colour, seed, q, nbrs[0], r, rest, filled);
    ghost var f0 := filled';
    r', stack', filled' := Visit(m, target, colour, seed, q, nbrs[1], r', stack', filled');
    ghost var f1 := filled';
    r', stack', filled' := Visit(m, target, colour, seed, q, nbrs[2], r', stack', filled');
    ghost var f2 := filled';
    r', stack', filled' := Visit(m, target, colour, seed, q, nbrs[3], r', stack', filled');
    assert Handled(m, target, f0, nbrs[0]) && Handled(m, target, f1, nbrs[1]);
    assert Handled(m, target, f2, nbrs[2]);
    assert f0 <= f1 <= f2 <= filled';
    assert Handled(m, target, filled', nbrs[0]) && Handled(m, target, filled', nbrs[1]);
    assert Handled(m, target, filled', nbrs[2]);
    ClosedFromNeighbours(m, target, filled', q);
    Reclose(m, target, filled, filled', rest, q, stack');
  }

  /**
   Fills from `seed` with `colour`: exactly the pixels 4-connected to `seed`
   through pixels of the seed's value take `colour`; every other pixel keeps
   its value. A seed that already has `colour` changes nothing.
   */
  method Fill(m: Image, seed: Point, colour: int) returns (r: Image)
    requires InBounds(m, seed)
    ensures SameShape(r, m)
    ensures forall p :: InBounds(m, p) ==>
              At(r, p) == (if Connected(m, At(m, seed), seed, p) then colour else At(m, p))
  {
    var target := At(m, seed);
    if target == colour {
      forall p | InBounds(m, p) && Connected(m, target, seed, p)
        ensures At(m, p) == colour
      {
        ConnectedEnds(m, target, seed, p);
      }
      return m;
    }
    ConnectedSelf(m, target, seed);
    ghost var filled := {seed};
    PaintedStep(m, m, {}, colour, seed);
    r := Update(m, seed, colour);
    var stack := [seed];
    while stack != []
      invariant Invariant(m, target, colour, seed, r, stack, filled)
      decreases 2 * |PixelsOf(m, target) - filled| + |stack|
    {
      r, stack, filled := Step(m, target, colour, seed, r, stack, filled);
    }
    forall p | InBounds(m, p) && Connected(m, target, seed, p)
      ensures p in filled
    {
      ClosedContainsComponent(m, target, filled, seed, p);
    }
  }
}
