/**
 The in-repository part of `watershed` in OrganoidArea.py: ImageJ's
 MaximumFinder returns a segmented mask (255 inside particles, 0 on the
 dividing lines) or nothing, and the mask is combined with it by a bitwise
 AND. The distance map and the maxima search are library code and reach this
 model only through that segmented mask.
 */
module Watershed {
  import opened Images
  import opened Options

  /** Bitwise AND of two non-negative integers, one binary digit at a time. */
  function BitAnd(a: nat, b: nat): nat
    decreases a
  {
    if a == 0 || b == 0 then 0
    else 2 * BitAnd(a / 2, b / 2) + (if a % 2 == 1 && b % 2 == 1 then 1 else 0)
  }

  /** AND never exceeds either operand. */
  lemma {:induction false} BitAndBelow(a: nat, b: nat)
    ensures BitAnd(a, b) <= a && BitAnd(a, b) <= b
    decreases a
  {
    if a != 0 && b != 0 {
      BitAndBelow(a / 2, b / 2);
    }
  }

  /** AND of a value with itself is the value. */
  lemma {:induction false} BitAndSelf(a: nat)
    ensures BitAnd(a, a) == a
    decreases a
  {
    if a != 0 {
      BitAndSelf(a / 2);
    }
  }

  /** `Blitter.AND` on one pair of 8-bit samples: it never raises a sample, and on 0/255 samples it is logical AND. */
  function AndSample(a: int, b: int): (r: int)
    requires 0 <= a < 256 && 0 <= b < 256
    ensures 0 <= r <= a && r <= b
    ensures (a == Background || a == Foreground) && (b == Background || b == Foreground) ==>
              r == (if a == Foreground && b == Foreground then Foreground else Background)
  {
    BitAndBelow(a, b);
    BitAndSelf(a);
    BitAnd(a, b)
  }

  /**
   `ip.copyBits(maxIp, 0, 0, Blitter.AND)` when MaximumFinder found a
   segmentation, and no change when it returned nothing: the AND can only
   clear pixels, and on binary masks a pixel survives exactly when it is
   foreground in both.
   */
  function Intersect(mask: Image, lines: Option<Image>): (r: Image)
    requires IsByteImage(mask)
    requires lines.Some? ==> SameShape(lines.value, mask) && IsByteImage(lines.value)
    ensures SameShape(r, mask)
    ensures lines.None? ==> r == mask
    ensures forall p :: InBounds(mask, p) ==> 0 <= At(r, p) <= At(mask, p)
    ensures lines.Some? && IsBinary(mask) && IsBinary(lines.value) ==>
              IsBinary(r) &&
              forall p :: InBounds(mask, p) ==>
                (At(r, p) == Foreground <==> At(mask, p) == Foreground && At(lines.value, p) == Foreground)
  {
    match lines
    case None => mask
    case Some(seg) =>
      var r := seq(|mask|, y requires 0 <= y < |mask| =>
        seq(|mask[y]|, x requires 0 <= x < |mask[y]| =>
          assert InBounds(mask, Point(x, y)) && InBounds(seg, Point(x, y));
          AndSample(mask[y][x], seg[y][x])));
      assert forall p :: InBounds(mask, p) ==> At(r, p) == AndSample(At(mask, p), At(seg, p));
      forall p | InBounds(mask, p)
        ensures 0 <= At(r, p) <= At(mask, p)
        ensures IsBinary(mask) && IsBinary(seg) ==>
                  At(r, p) == (if At(mask, p) == Foreground && At(seg, p) == Foreground then Foreground else Background)
      {
      }
      r
  }
}
