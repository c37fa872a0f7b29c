/**
 The script's main flow after the mask is built (OrganoidArea.py lines
 149-177): extract the regions, halt with "No organoids found" when there are
 none, otherwise measure each region and tabulate the accepted ones. Region
 statistics come from ImageJ and are supplied as the function `measure`.
 */
module Organoids {
  import opened Options
  import opened Regions
  import opened Measurements

  /**
   The script either halts with a message, or ends with the extracted regions,
   the overlay of accepted regions, and the table built from them.
   */
  datatype Outcome = Halted(message: string) | Measured(rois: seq<Region>, overlay: seq<Region>, report: Report)

  /** `roi.getStatistics()` for every region, in region order. */
  function MeasureAll(rois: seq<Region>, measure: Region -> Stats): (s: seq<Stats>)
    ensures |s| == |rois|
    ensures forall i :: 0 <= i < |rois| ==> s[i] == measure(rois[i])
  {
    seq(|rois|, i requires 0 <= i < |rois| => measure(rois[i]))
  }

  /**
   Halts exactly when ThresholdToSelection found nothing. Otherwise `rois` are
   the regions `getRoisFromMask` returned, and the table holds, in region order
   and labelled 0, 1, 2, ..., each region whose measured area lies in
   minA..maxA, once; the overlay holds the same regions in the same order.
   */
  method Analyse(composite: Option<Composite>, measure: Region -> Stats, minA: int, maxA: int)
    returns (out: Outcome)
    ensures out.Halted? <==> composite.None?
    ensures out.Halted? ==> out.message == NoOrganoidsMessage
    ensures out.Measured? ==> out.rois == RoisFromMask(composite).rois
    ensures out.Measured? ==> |out.rois| == |composite.value.parts| && |out.report.areas| == |out.report.rows|
    ensures out.Measured? ==>
              forall k :: 0 <= k < |out.report.rows| ==>
                && out.report.rows[k].organoid == k
                && out.report.rows[k].index < |out.rois|
                && out.report.rows[k].stats == measure(out.rois[out.report.rows[k].index])
                && out.report.areas[k] == out.report.rows[k].stats.area
    ensures out.Measured? ==>
              forall k, l :: 0 <= k < l < |out.report.rows| ==> out.report.rows[k].index < out.report.rows[l].index
    ensures out.Measured? ==>
              forall i :: 0 <= i < |out.rois| ==>
                (Accepted(measure(out.rois[i]).area, minA, maxA) <==> i in IndicesOf(out.report.rows))
    ensures out.Measured? ==> StatsOf(out.report.rows) == Kept(MeasureAll(out.rois, measure), minA, maxA)
    ensures out.Measured? ==>
              && |out.overlay| == |out.report.rows|
              && forall k :: 0 <= k < |out.overlay| ==> out.overlay[k] == out.rois[out.report.rows[k].index]
  {
    var e := RoisFromMask(composite);
    if e.NoOrganoids? {
      return Halted(NoOrganoidsMessage);
    }
    var stats := MeasureAll(e.rois, measure);
    var report := Tabulate(stats, minA, maxA);
    var overlay := seq(|report.rows|, k requires 0 <= k < |report.rows| => e.rois[report.rows[k].index]);
    out := Measured(e.rois, overlay, report);
  }

  /**
   The script as configured: the area bounds are fixed at 100 and 25000 square
   pixels, both inclusive, so a region of area 100 or 25000 is an organoid and
   one of area 99 or 25001 is not.
   */
  method AnalyseScript(composite: Option<Composite>, measure: Region -> Stats) returns (out: Outcome)
    ensures out.Halted? <==> composite.None?
    ensures out.Halted? ==> out.message == NoOrganoidsMessage
    ensures out.Measured? ==> out.rois == RoisFromMask(composite).rois
    ensures out.Measured? ==> |out.rois| == |composite.value.parts| && |out.report.areas| == |out.report.rows|
    ensures out.Measured? ==>
              forall k :: 0 <= k < |out.report.rows| ==>
                && out.report.rows[k].organoid == k
                && out.report.rows[k].index < |out.rois|
                && out.report.rows[k].stats == measure(out.rois[out.report.rows[k].index])
                && out.report.areas[k] == out.report.rows[k].stats.area
    ensures out.Measured? ==>
              forall k, l :: 0 <= k < l < |out.report.rows| ==> out.report.rows[k].index < out.report.rows[l].index
    ensures out.Measured? ==>
              forall i :: 0 <= i < |out.rois| ==>
                (100 <= measure(out.rois[i]).area <= 25000 <==> i in IndicesOf(out.report.rows))
    ensures out.Measured? ==> StatsOf(out.report.rows) == Kept(MeasureAll(out.rois, measure), MinArea, MaxArea)
    ensures out.Measured? ==>
              && |out.overlay| == |out.report.rows|
              && forall k :: 0 <= k < |out.overlay| ==> out.overlay[k] == out.rois[out.report.rows[k].index]
  {
    out := Analyse(composite, measure, MinArea, MaxArea);
  }
}
