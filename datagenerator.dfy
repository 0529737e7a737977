/** The deterministic parts of src/datagenerator/datagenerator.py: the binning of
    point coordinates into pixel indices and the clamp of the r range of a random
    line to the unit square. The random sampling itself is not modelled. */
module DataGenerator {

  import opened Binning
  import opened Geometry

  /** x_bins and y_bins: linspace(0, 1, bins) over X_Y_RANGE = [0, 1]. */
  function PixelEdges(bins: nat): (e: seq<real>)
    ensures |e| == bins && Sorted(e)
  {
    Linspace(0.0, 1.0, bins)
  }

  /** The pixel index of one coordinate: digitize against the pixel edges. */
  function PixelIndex(v: real, bins: nat): (p: nat)
    ensures p <= bins
  {
    Digitize(v, PixelEdges(bins))
  }

  /** _coordinates_to_pixel: one row of pixel indices per input point, the first
      column from x only and the second from y only. */
  function CoordinatesToPixel(points: seq<(real, real)>, bins: nat): (pixels: seq<(nat, nat)>)
    ensures |pixels| == |points|
    ensures forall n :: 0 <= n < |points| ==>
      pixels[n] == (PixelIndex(points[n].0, bins), PixelIndex(points[n].1, bins))
  {
    seq(|points|, n requires 0 <= n < |points| => (PixelIndex(points[n].0, bins), PixelIndex(points[n].1, bins)))
  }

  /** The pixel index of v counts the edges at or below v. */
  lemma PixelIndexCounts(v: real, bins: nat)
    ensures var p, e := PixelIndex(v, bins), PixelEdges(bins);
      (forall k :: 0 <= k < p ==> e[k] <= v) && (forall k :: p <= k < bins ==> v < e[k])
  {
    DigitizeBracket(v, PixelEdges(bins));
  }

  /** A larger coordinate never gets a smaller pixel index. */
  lemma PixelIndexMonotone(v1: real, v2: real, bins: nat)
    requires v1 <= v2
    ensures PixelIndex(v1, bins) <= PixelIndex(v2, bins)
  {
    DigitizeMonotone(v1, v2, PixelEdges(bins));
  }

  /** Inside [0, 1) the index is one more than the number of whole pixel widths
      from 0, so it lies in [1, bins - 1]: index 0 is never produced, and 0 itself
      maps to 1. */
  lemma PixelIndexInside(v: real, bins: nat)
    requires bins >= 2 && 0.0 <= v < 1.0
    ensures PixelIndex(v, bins) == (v * ((bins - 1) as real)).Floor + 1
    ensures 1 <= PixelIndex(v, bins) <= bins - 1
    ensures v == 0.0 ==> PixelIndex(v, bins) == 1
  {
    DigitizeLinspace(v, 0.0, 1.0, bins);
    assert Step(0.0, 1.0, bins) == 1.0 / ((bins - 1) as real);
    assert (v - 0.0) / Step(0.0, 1.0, bins) == v * ((bins - 1) as real);
    var e := PixelEdges(bins);
    PixelIndexCounts(v, bins);
    assert e[bins - 1] == 1.0 && v < e[bins - 1];
    assert e[0] == 0.0 && e[0] <= v;
  }

  /** Out-of-range coordinates are not clamped: from 1 on the index is bins, one
      past the last pixel, and below 0 it is 0. */
  lemma PixelIndexOutside(v: real, bins: nat)
    requires bins >= 1
    ensures 1.0 <= v ==> PixelIndex(v, bins) == bins
    ensures v < 0.0 ==> PixelIndex(v, bins) == 0
  {
    var e := PixelEdges(bins);
    assert e[0] == 0.0;
    assert bins >= 2 ==> e[bins - 1] == 1.0;
    DigitizeOutside(v, e);
  }

  /** The r values of the four corners (0, 0), (1, 1), (0, 1), (1, 0) of the unit
      square for cos θ = c and sin θ = s. */
  function CornerRs(c: real, s: real): (rs: seq<real>)
    ensures |rs| == 4 && rs[0] == 0.0
  {
    ROfOrigin(c, s);
    [R(c, s, 0.0, 0.0), R(c, s, 1.0, 1.0), R(c, s, 0.0, 1.0), R(c, s, 1.0, 0.0)]
  }

  function Min4(rs: seq<real>): real
    requires |rs| == 4
  {
    var a := if rs[0] < rs[1] then rs[0] else rs[1];
    var b := if rs[2] < rs[3] then rs[2] else rs[3];
    if a < b then a else b
  }

  function Max4(rs: seq<real>): real
    requires |rs| == 4
  {
    var a := if rs[0] < rs[1] then rs[1] else rs[0];
    var b := if rs[2] < rs[3] then rs[3] else rs[2];
    if a < b then b else a
  }

  /** The r range of _points_on_line: the corner r values clamped to X_Y_RANGE.
      Since the corner (0, 0) has r = 0, the lower end is always exactly 0 and the
      upper end lies in [0, 1], whatever the angle. */
  function RRange(c: real, s: real): (range: (real, real))
    ensures range.0 == 0.0
    ensures 0.0 <= range.1 <= 1.0
    ensures (forall k :: 0 <= k < 4 ==> CornerRs(c, s)[k] <= 1.0) ==>
      range.1 in CornerRs(c, s) && forall k :: 0 <= k < 4 ==> CornerRs(c, s)[k] <= range.1
    ensures (exists k :: 0 <= k < 4 && CornerRs(c, s)[k] > 1.0) ==> range.1 == 1.0
  {
    var rs := CornerRs(c, s);
    var lo, hi := Min4(rs), Max4(rs);
    (if 0.0 < lo then lo else 0.0, if 1.0 < hi then 1.0 else hi)
  }
}
