/**
 * `_calculate_overlap_ratio`: how much of a path's 15-metre buffered footprint is new ground,
 * as a ratio of the footprint a path of the same length would cover without retracing itself.
 * The projection to metres, the line length and the buffer's area come from a geometry library and
 * are abstract here; `None` stands for a step of that library raising.
 */
module Overlap {
  import opened Wrappers
  import opened GeoJson

  type NonNegReal = r: real | r >= 0.0

  const BufferRadius: real := 15.0
  /** The width of a non-overlapping footprint: the buffer reaches `BufferRadius` on both sides. */
  const FootprintWidth: real := 30.0

  datatype Geometry = Geometry(
    /** Length in metres of the line through the coordinates once projected; `None` if building or projecting it raises. */
    projectedLength: seq<Position> -> Option<NonNegReal>,
    /** Area of the projected line buffered by the given radius; `None` if buffering raises. */
    bufferedArea: (seq<Position>, real) -> Option<NonNegReal>)

  const FallbackRatio: real := 0.5

  /** `_calculate_overlap_ratio(coords)`. */
  function OverlapRatio(geo: Geometry, coords: seq<Position>): (r: real)
    ensures 0.0 <= r <= 1.0
    ensures |coords| < 2 ==> r == 0.0
    ensures |coords| >= 2 && geo.projectedLength(coords) == Some(0.0) ==> r == 0.0
    ensures |coords| >= 2 && geo.projectedLength(coords).None? ==> r == FallbackRatio
    ensures (&& |coords| >= 2 && geo.projectedLength(coords).Some? && geo.projectedLength(coords).value > 0.0
             && geo.bufferedArea(coords, BufferRadius).None?) ==> r == FallbackRatio
  {
    if |coords| < 2 then 0.0
    else match geo.projectedLength(coords)
      case None => FallbackRatio
      case Some(totalLength) =>
        if totalLength == 0.0 then 0.0
        else match geo.bufferedArea(coords, BufferRadius)
          case None => FallbackRatio
          case Some(actualArea) =>
            var ratio := actualArea / (totalLength * FootprintWidth);
            if ratio <= 1.0 then ratio else 1.0
  }

  /** Dividing by a positive number keeps the comparison with it. */
  lemma QuotientVersusOne(a: real, t: real)
    requires t > 0.0
    ensures a / t >= 1.0 <==> a >= t
    ensures a / t == 0.0 <==> a == 0.0
    ensures (a / t) * t == a
  {
    var r := a / t;
    assert r * t == a;
    if r < 1.0 {
      assert (1.0 - r) * t > 0.0;
    } else {
      var d := r - 1.0;
      assert d * t >= 0.0;
      assert r * t == t + d * t;
    }
  }

  /** The buffer's area and the length are both known and the length is positive. */
  predicate Measured(geo: Geometry, coords: seq<Position>)
  {
    && |coords| >= 2
    && geo.projectedLength(coords).Some? && geo.projectedLength(coords).value > 0.0
    && geo.bufferedArea(coords, BufferRadius).Some?
  }

  /**
   * For a measured path the ratio reaches 1 exactly when the footprint is at least as large as a
   * non-overlapping one of the same length, and is 0 exactly when the footprint has no area.
   */
  lemma MeasuredRatio(geo: Geometry, coords: seq<Position>)
    requires Measured(geo, coords)
    ensures var l, a := geo.projectedLength(coords).value, geo.bufferedArea(coords, BufferRadius).value;
      && (OverlapRatio(geo, coords) == 1.0 <==> a >= l * FootprintWidth)
      && (OverlapRatio(geo, coords) == 0.0 <==> a == 0.0)
      && (a < l * FootprintWidth ==> OverlapRatio(geo, coords) * (l * FootprintWidth) == a)
  {
    var l, a := geo.projectedLength(coords).value, geo.bufferedArea(coords, BufferRadius).value;
    QuotientVersusOne(a, l * FootprintWidth);
  }

  /** The penalty the optimiser derives from the ratio lies in [0, 1]; a degenerate path gets the full penalty. */
  lemma OverlapPenaltyBounds(geo: Geometry, coords: seq<Position>)
    ensures 0.0 <= 1.0 - OverlapRatio(geo, coords) <= 1.0
    ensures |coords| < 2 ==> 1.0 - OverlapRatio(geo, coords) == 1.0
  {
  }
}
