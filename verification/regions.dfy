/**
 `getRoisFromMask` of OrganoidArea.py: ThresholdToSelection turns the final
 mask into one composite selection, ShapeRoi splits it into regions, and a
 lone region is moved by the composite's bounds origin because ImageJ reports
 it relative to the composite. The polygon tracing itself is library code:
 the composite arrives here already traced, or not at all.
 */
module Regions {
  import opened Images
  import opened Options

  /** A `java.awt.Rectangle`: origin and size. */
  datatype Rect = Rect(x: int, y: int, width: nat, height: nat)

  /** A region of interest: its bounding rectangle and its outline relative to that rectangle's origin. */
  datatype Region = Region(bounds: Rect, outline: seq<Point>)

  /** What `ThresholdToSelection.convert` returns: the composite's bounds and the regions `getRois` splits it into. */
  datatype Composite = Composite(bounds: Rect, parts: seq<Region>)

  /** The outcome of `getRoisFromMask`: the script halts, or goes on with these regions. */
  datatype Extraction = NoOrganoids | Found(rois: seq<Region>)

  const NoOrganoidsMessage := "No organoids found"

  /** `Roi.setLocation`: moves a region so that its bounds start at (`x`, `y`). */
  function SetLocation(r: Region, x: int, y: int): Region {
    r.(bounds := r.bounds.(x := x, y := y))
  }

  /** Shifts a region by (`dx`, `dy`). */
  function Translate(r: Region, dx: int, dy: int): Region {
    SetLocation(r, r.bounds.x + dx, r.bounds.y + dy)
  }

  /** Same size and same outline: the two regions differ at most in where they sit. */
  predicate SameShapeAs(a: Region, b: Region) {
    a.bounds.width == b.bounds.width && a.bounds.height == b.bounds.height && a.outline == b.outline
  }

  /**
   No composite halts the script; a single region is moved by the composite's
   origin; two or more regions are returned unchanged. No region is dropped,
   added, resized or reshaped.
   */
  function RoisFromMask(composite: Option<Composite>): (e: Extraction)
    ensures e.NoOrganoids? <==> composite.None?
    ensures e.Found? ==> |e.rois| == |composite.value.parts|
    ensures e.Found? ==> forall i :: 0 <= i < |e.rois| ==> SameShapeAs(e.rois[i], composite.value.parts[i])
    ensures e.Found? && |e.rois| == 1 ==>
              && e.rois[0].bounds.x == composite.value.parts[0].bounds.x + composite.value.bounds.x
              && e.rois[0].bounds.y == composite.value.parts[0].bounds.y + composite.value.bounds.y
    ensures e.Found? && |e.rois| != 1 ==> e.rois == composite.value.parts
  {
    match composite
    case None => NoOrganoids
    case Some(c) =>
      if |c.parts| == 1 then
        var rr := c.parts[0].bounds;
        var offset := c.bounds;
        Found([SetLocation(c.parts[0], rr.x + offset.x, rr.y + offset.y)])
      else
        Found(c.parts)
  }

  /** Translating back undoes a translation. */
  lemma TranslateInverse(r: Region, dx: int, dy: int)
    ensures Translate(Translate(r, dx, dy), -dx, -dy) == r
  {
  }

  /**
   With the single-region correction every region is in mask coordinates:
   shifting the lone corrected region back by the composite's origin recovers
   the region as ImageJ reported it, and when the composite sits at the mask
   origin the correction changes nothing, for any number of regions.
   */
  lemma CorrectionIsCompositeOffset(c: Composite)
    ensures |c.parts| == 1 ==>
              Translate(RoisFromMask(Some(c)).rois[0], -c.bounds.x, -c.bounds.y) == c.parts[0]
    ensures c.bounds.x == 0 && c.bounds.y == 0 ==> RoisFromMask(Some(c)) == Found(c.parts)
  {
    if |c.parts| == 1 {
      TranslateInverse(c.parts[0], c.bounds.x, c.bounds.y);
    }
    if c.bounds.x == 0 && c.bounds.y == 0 && |c.parts| == 1 {
      assert RoisFromMask(Some(c)).rois == [c.parts[0]];
    }
  }
}
