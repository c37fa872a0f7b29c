/**
 The measuring loop at the end of OrganoidArea.py: each region's area is
 compared with the inclusive bounds minA..maxA; an accepted region gets the
 next results-table row, whose row number is also its label, and its area is
 appended to the list the histogram is drawn from. The statistics themselves
 come from ImageJ's `roi.getStatistics()` and are inputs here.
 */
module Measurements {

  /** The script's default area bounds, in square pixels. */
  const MinArea: int := 100
  const MaxArea: int := 25000

  /** The part of `roi.getStatistics()` the table records: area and centroid. */
  datatype Stats = Stats(area: int, xCentroid: real, yCentroid: real)

  /** One results-table row: its "Organoid" label (the row number), the position of its region in the region list, and its statistics. */
  datatype Row = Row(organoid: nat, index: nat, stats: Stats)

  /** The results table and the list of accepted areas. */
  datatype Report = Report(rows: seq<Row>, areas: seq<int>)

  /** The organoid test: both bounds inclusive. */
  predicate Accepted(area: int, minA: int, maxA: int) {
    minA <= area && area <= maxA
  }

  /** Reference definition: the accepted statistics, in their original order. */
  function Kept(stats: seq<Stats>, minA: int, maxA: int): seq<Stats> {
    if |stats| == 0 then []
    else
      var last := stats[|stats| - 1];
      Kept(stats[..|stats| - 1], minA, maxA) + (if Accepted(last.area, minA, maxA) then [last] else [])
  }

  /** The statistics column of a table. */
  function StatsOf(rows: seq<Row>): seq<Stats> {
    seq(|rows|, k requires 0 <= k < |rows| => rows[k].stats)
  }

  /** The region positions a table's rows come from, in row order. */
  function IndicesOf(rows: seq<Row>): seq<nat> {
    seq(|rows|, k requires 0 <= k < |rows| => rows[k].index)
  }

  /** The area column of a list of statistics. */
  function AreasOf(stats: seq<Stats>): seq<int> {
    seq(|stats|, k requires 0 <= k < |stats| => stats[k].area)
  }

  /**
   The loop over `rois`: rows are labelled 0, 1, 2, ... without gaps, follow
   the regions' order, and hold exactly the regions whose area lies in
   minA..maxA; `areas` has one entry per row, in the same order.
   */
  method Tabulate(stats: seq<Stats>, minA: int, maxA: int) returns (rep: Report)
    ensures |rep.areas| == |rep.rows|
    ensures forall k :: 0 <= k < |rep.rows| ==>
              && rep.rows[k].organoid == k
              && rep.rows[k].index < |stats|
              && rep.rows[k].stats == stats[rep.rows[k].index]
              && rep.areas[k] == rep.rows[k].stats.area
    ensures forall k, l :: 0 <= k < l < |rep.rows| ==> rep.rows[k].index < rep.rows[l].index
    ensures forall i :: 0 <= i < |stats| ==>
              (Accepted(stats[i].area, minA, maxA) <==> i in IndicesOf(rep.rows))
    ensures StatsOf(rep.rows) == Kept(stats, minA, maxA)
    ensures rep.areas == AreasOf(Kept(stats, minA, maxA))
  {
    var rows: seq<Row> := [];
    var areas: seq<int> := [];
    var i := 0;
    while i < |stats|
      invariant 0 <= i <= |stats|
      invariant |areas| == |rows|
      invariant forall k :: 0 <= k < |rows| ==>
                  && rows[k].organoid == k
                  && rows[k].index < i
                  && rows[k].stats == stats[rows[k].index]
                  && areas[k] == rows[k].stats.area
      invariant forall k, l :: 0 <= k < l < |rows| ==> rows[k].index < rows[l].index
      invariant forall j :: 0 <= j < i ==>
                  (Accepted(stats[j].area, minA, maxA) <==> j in IndicesOf(rows))
      invariant StatsOf(rows) == Kept(stats[..i], minA, maxA)
    {
      assert stats[..i + 1][..i] == stats[..i];
      if Accepted(stats[i].area, minA, maxA) {
        var row := |rows|;
        var next := Row(row, i, stats[i]);
        assert IndicesOf(rows + [next]) == IndicesOf(rows) + [i];
        assert StatsOf(rows + [next]) == StatsOf(rows) + [stats[i]];
        areas := areas + [stats[i].area];
        rows := rows + [next];
      }
      i := i + 1;
    }
    assert stats[..i] == stats;
    rep := Report(rows, areas);
  }

  /** Filtering a concatenation filters each part: the filter keeps order and looks at each region alone. */
  lemma {:induction false} KeptConcat(a: seq<Stats>, b: seq<Stats>, minA: int, maxA: int)
    ensures Kept(a + b, minA, maxA) == Kept(a, minA, maxA) + Kept(b, minA, maxA)
    decreases |b|
  {
    if |b| == 0 {
      assert a + b == a;
    } else {
      var b' := b[..|b| - 1];
      assert (a + b)[..|a + b| - 1] == a + b';
      KeptConcat(a, b', minA, maxA);
    }
  }

  /** Every kept region is accepted, and no more regions are kept than measured. */
  lemma {:induction false} KeptAccepted(stats: seq<Stats>, minA: int, maxA: int)
    ensures |Kept(stats, minA, maxA)| <= |stats|
    ensures forall s :: s in Kept(stats, minA, maxA) ==> s in stats && Accepted(s.area, minA, maxA)
  {
    if |stats| > 0 {
      KeptAccepted(stats[..|stats| - 1], minA, maxA);
    }
  }
}
