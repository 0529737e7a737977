/** The Hough transform of src/linefinder/linesfinder.py: every point votes, at each
    sampled angle, for the bin of its distance r = x cos θ + y sin θ; the votes form
    an accumulator image whose peaks become lines. cos θ and sin θ are not computed:
    the cosines cs and sines ss of the sampled angles are given, as is π. */
module LinesFinder {

  import opened Errors
  import opened Binning
  import opened Geometry
  import opened PointsFinder
  import Labelling

  /** A found line, in Hesse normal form x cos θ + y sin θ = r. */
  datatype Line = Line(r: real, theta: real)

  /** THETA_RANGE sampled into n angles: linspace(0, π, n). */
  function Thetas(pi: real, n: nat): (thetas: seq<real>)
    ensures |thetas| == n
    ensures n >= 1 ==> thetas[0] == 0.0
    ensures n >= 2 ==> thetas[n - 1] == pi
    ensures pi > 0.0 ==> StrictlySorted(thetas)
  {
    Linspace(0.0, pi, n)
  }

  /** The column of angle indices, digitize(thetas, thetas) - 1. */
  function ThetaIndices(thetas: seq<real>): (idx: seq<int>)
    ensures |idx| == |thetas|
  {
    seq(|thetas|, k requires 0 <= k < |thetas| => Digitize(thetas[k], thetas) - 1)
  }

  /** Each sampled angle gets its own position as index, since π > 0 makes the
      samples strictly increasing. */
  lemma ThetaIndexIsPosition(pi: real, n: nat)
    requires pi > 0.0
    ensures forall k :: 0 <= k < n ==> ThetaIndices(Thetas(pi, n))[k] == k
  {
    var thetas := Thetas(pi, n);
    if n >= 2 {
      forall k | 0 <= k < n
        ensures ThetaIndices(thetas)[k] == k
      {
        DigitizeEdge(thetas, k);
      }
    } else if n == 1 {
      assert Digitize(thetas[0], thetas) == Digitize(thetas[0], []) + 1;
    }
  }

  /** The points are rows (x, y); every row of the result holds the point's r at
      each sampled angle. */
  function RMatrix(points: seq<(real, real)>, cs: seq<real>, ss: seq<real>): (rs: seq<seq<real>>)
    requires |cs| == |ss|
    ensures |rs| == |points|
    ensures forall n :: 0 <= n < |rs| ==> |rs[n]| == |cs|
  {
    seq(|points|, n requires 0 <= n < |points| =>
      seq(|cs|, k requires 0 <= k < |cs| => R(cs[k], ss[k], points[n].0, points[n].1)))
  }

  ghost predicate Rectangular(rs: seq<seq<real>>, t: nat)
  {
    forall n :: 0 <= n < |rs| ==> |rs[n]| == t
  }

  function SeqMin(v: seq<real>): (m: real)
    requires |v| > 0
    ensures forall k :: 0 <= k < |v| ==> m <= v[k]
    ensures exists k :: 0 <= k < |v| && v[k] == m
  {
    if |v| == 1 then v[0]
    else
      var m := SeqMin(v[..|v| - 1]);
      assert forall k :: 0 <= k < |v| - 1 ==> v[..|v| - 1][k] == v[k];
      if v[|v| - 1] < m then v[|v| - 1] else m
  }

  function SeqMax(v: seq<real>): (m: real)
    requires |v| > 0
    ensures forall k :: 0 <= k < |v| ==> v[k] <= m
    ensures exists k :: 0 <= k < |v| && v[k] == m
  {
    if |v| == 1 then v[0]
    else
      var m := SeqMax(v[..|v| - 1]);
      assert forall k :: 0 <= k < |v| - 1 ==> v[..|v| - 1][k] == v[k];
      if m < v[|v| - 1] then v[|v| - 1] else m
  }

  /** rs.min(): the least entry of a non-empty rectangular matrix. */
  function MatMin(rs: seq<seq<real>>, t: nat): (m: real)
    requires |rs| > 0 && t > 0 && Rectangular(rs, t)
    ensures forall n, k :: 0 <= n < |rs| && 0 <= k < t ==> m <= rs[n][k]
    ensures exists n, k :: 0 <= n < |rs| && 0 <= k < t && rs[n][k] == m
  {
    var r := SeqMin(rs[|rs| - 1]);
    if |rs| == 1 then r
    else
      var m := MatMin(rs[..|rs| - 1], t);
      assert forall n :: 0 <= n < |rs| - 1 ==> rs[..|rs| - 1][n] == rs[n];
      if r < m then r else m
  }

  /** rs.max(): the greatest entry of a non-empty rectangular matrix. */
  function MatMax(rs: seq<seq<real>>, t: nat): (m: real)
    requires |rs| > 0 && t > 0 && Rectangular(rs, t)
    ensures forall n, k :: 0 <= n < |rs| && 0 <= k < t ==> rs[n][k] <= m
    ensures exists n, k :: 0 <= n < |rs| && 0 <= k < t && rs[n][k] == m
  {
    var r := SeqMax(rs[|rs| - 1]);
    if |rs| == 1 then r
    else
      var m := MatMax(rs[..|rs| - 1], t);
      assert forall n :: 0 <= n < |rs| - 1 ==> rs[..|rs| - 1][n] == rs[n];
      if m < r then r else m
  }

  /** r_bins: bins0 evenly spaced edges from the least to the greatest r. */
  function RBins(rs: seq<seq<real>>, t: nat, bins0: nat): (e: seq<real>)
    requires |rs| > 0 && t > 0 && Rectangular(rs, t)
    ensures |e| == bins0 && Sorted(e)
    ensures bins0 >= 1 ==> e[0] == MatMin(rs, t)
    ensures bins0 >= 2 ==> e[bins0 - 1] == MatMax(rs, t)
  {
    var lo, hi := MatMin(rs, t), MatMax(rs, t);
    assert lo <= hi by {
      assert lo <= rs[0][0] <= hi;
    }
    Linspace(lo, hi, bins0)
  }

  /** The r bin of v: digitize(v, r_bins) - 1. */
  function BinIndex(v: real, e: seq<real>): (i: int)
    ensures -1 <= i < |e|
  {
    Digitize(v, e) - 1
  }

  /** binned_rs: the r bin of every entry of the r matrix. */
  function BinnedRs(rs: seq<seq<real>>, e: seq<real>): (b: seq<seq<int>>)
    ensures |b| == |rs|
    ensures forall n :: 0 <= n < |b| ==> |b[n]| == |rs[n]|
  {
    seq(|rs|, n requires 0 <= n < |rs| => seq(|rs[n]|, k requires 0 <= k < |rs[n]| => BinIndex(rs[n][k], e)))
  }

  /** Every r, lying between the least and the greatest, gets a bin index in
      [0, bins0 - 1]; the index i satisfies r_bins[i] <= r, and r < r_bins[i + 1]
      unless i is the last bin. */
  lemma BinIndexBracket(rs: seq<seq<real>>, t: nat, bins0: nat, n: int, k: int)
    requires |rs| > 0 && t > 0 && Rectangular(rs, t) && bins0 >= 1
    requires 0 <= n < |rs| && 0 <= k < t
    ensures var e, i := RBins(rs, t, bins0), BinIndex(rs[n][k], RBins(rs, t, bins0));
      && 0 <= i < bins0
      && e[i] <= rs[n][k]
      && (i < bins0 - 1 ==> rs[n][k] < e[i + 1])
  {
    var e, v := RBins(rs, t, bins0), rs[n][k];
    DigitizeBracket(v, e);
    assert e[0] <= v;
  }

  /** Every entry of binned_rs is a row index of the accumulator. */
  lemma BinnedInRange(rs: seq<seq<real>>, t: nat, bins0: nat)
    requires |rs| > 0 && t > 0 && Rectangular(rs, t) && bins0 >= 1
    ensures var b := BinnedRs(rs, RBins(rs, t, bins0));
      forall n, k :: 0 <= n < |rs| && 0 <= k < t ==> 0 <= b[n][k] < bins0
  {
    forall n, k | 0 <= n < |rs| && 0 <= k < t
      ensures 0 <= BinnedRs(rs, RBins(rs, t, bins0))[n][k] < bins0
    {
      BinIndexBracket(rs, t, bins0, n, k);
    }
  }

  /** The greatest r always falls in the last bin. */
  lemma MaxInLastBin(rs: seq<seq<real>>, t: nat, bins0: nat)
    requires |rs| > 0 && t > 0 && Rectangular(rs, t) && bins0 >= 1
    ensures BinIndex(MatMax(rs, t), RBins(rs, t, bins0)) == bins0 - 1
  {
    var e := RBins(rs, t, bins0);
    assert e[bins0 - 1] <= MatMax(rs, t) by {
      if bins0 == 1 {
        assert MatMin(rs, t) <= rs[0][0] <= MatMax(rs, t);
      }
    }
    DigitizeOutside(MatMax(rs, t), e);
  }

  /** The least r falls in the first bin when the r values are not all equal (or
      there is one bin); when they are all equal every r lands in the last bin. */
  lemma MinInFirstBin(rs: seq<seq<real>>, t: nat, bins0: nat)
    requires |rs| > 0 && t > 0 && Rectangular(rs, t) && bins0 >= 1
    ensures MatMin(rs, t) < MatMax(rs, t) || bins0 == 1 ==> BinIndex(MatMin(rs, t), RBins(rs, t, bins0)) == 0
    ensures MatMin(rs, t) == MatMax(rs, t) ==> BinIndex(MatMin(rs, t), RBins(rs, t, bins0)) == bins0 - 1
  {
    var lo, hi, e := MatMin(rs, t), MatMax(rs, t), RBins(rs, t, bins0);
    if lo < hi && bins0 >= 2 {
      DigitizeEdge(e, 0);
    } else if bins0 == 1 {
      DigitizeOutside(lo, e);
    }
    if lo == hi {
      MaxInLastBin(rs, t, bins0);
    }
  }

  /** The number of points, among the first n, whose r at angle k falls in bin i. */
  function Votes(binned: seq<seq<int>>, i: int, k: int, n: nat): (c: nat)
    requires n <= |binned|
    requires 0 <= k && forall m :: 0 <= m < |binned| ==> k < |binned[m]|
    ensures c <= n
  {
    if n == 0 then 0 else Votes(binned, i, k, n - 1) + (if binned[n - 1][k] == i then 1 else 0)
  }

  /** A cell gets no vote exactly when no point's r at that angle falls in its bin. */
  lemma {:induction false} NoVotesIffMissed(binned: seq<seq<int>>, i: int, k: int, n: nat)
    requires n <= |binned|
    requires 0 <= k && forall m :: 0 <= m < |binned| ==> k < |binned[m]|
    ensures Votes(binned, i, k, n) == 0 <==> forall m :: 0 <= m < n ==> binned[m][k] != i
  {
    if n > 0 {
      NoVotesIffMissed(binned, i, k, n - 1);
    }
  }

  /** The votes of bins [0, b) at angle k among the first n points. */
  function ColumnVotes(binned: seq<seq<int>>, k: int, n: nat, b: nat): nat
    requires n <= |binned|
    requires 0 <= k && forall m :: 0 <= m < |binned| ==> k < |binned[m]|
  {
    if b == 0 then 0 else ColumnVotes(binned, k, n, b - 1) + Votes(binned, b - 1, k, n)
  }

  /** One more point adds one vote to the bins [0, b) iff its bin lies among them. */
  lemma {:induction false} ColumnVotesStep(binned: seq<seq<int>>, k: int, n: nat, b: nat)
    requires n < |binned|
    requires 0 <= k && forall m :: 0 <= m < |binned| ==> k < |binned[m]|
    ensures ColumnVotes(binned, k, n + 1, b) ==
      ColumnVotes(binned, k, n, b) + (if 0 <= binned[n][k] < b then 1 else 0)
  {
    if b > 0 {
      ColumnVotesStep(binned, k, n, b - 1);
    }
  }

  lemma {:induction false} NoPointsNoVotes(binned: seq<seq<int>>, k: int, b: nat)
    requires 0 <= k && forall m :: 0 <= m < |binned| ==> k < |binned[m]|
    ensures ColumnVotes(binned, k, 0, b) == 0
  {
    if b > 0 {
      NoPointsNoVotes(binned, k, b - 1);
    }
  }

  /** When every point's bin lies in [0, bins0), each angle column holds exactly one
      vote per point. */
  lemma {:induction false} ColumnSum(binned: seq<seq<int>>, k: int, n: nat, bins0: nat)
    requires n <= |binned|
    requires 0 <= k && forall m :: 0 <= m < |binned| ==> k < |binned[m]| && 0 <= binned[m][k] < bins0
    ensures ColumnVotes(binned, k, n, bins0) == n
  {
    if n > 0 {
      ColumnSum(binned, k, n - 1, bins0);
      ColumnVotesStep(binned, k, n - 1, bins0);
    } else {
      NoPointsNoVotes(binned, k, bins0);
    }
  }

  /** The votes of the angle columns [0, t). */
  function TotalVotes(binned: seq<seq<int>>, n: nat, bins0: nat, t: nat): nat
    requires n <= |binned|
    requires forall m :: 0 <= m < |binned| ==> t <= |binned[m]|
  {
    if t == 0 then 0 else TotalVotes(binned, n, bins0, t - 1) + ColumnVotes(binned, t - 1, n, bins0)
  }

  /** The accumulator holds n votes per angle, n * t in all. */
  lemma {:induction false} TotalSum(binned: seq<seq<int>>, n: nat, bins0: nat, t: nat)
    requires n <= |binned|
    requires forall m :: 0 <= m < |binned| ==> t <= |binned[m]|
    requires forall m, k :: 0 <= m < |binned| && 0 <= k < t ==> 0 <= binned[m][k] < bins0
    ensures TotalVotes(binned, n, bins0, t) == n * t
  {
    if t > 0 {
      TotalSum(binned, n, bins0, t - 1);
      ColumnSum(binned, t - 1, n, bins0);
    }
  }

  /** Every angle column holds one vote per point, and all columns together n * t. */
  lemma Conservation(binned: seq<seq<int>>, n: nat, bins0: nat, t: nat)
    requires n == |binned|
    requires forall m :: 0 <= m < |binned| ==> |binned[m]| == t
    requires forall m, k :: 0 <= m < |binned| && 0 <= k < t ==> 0 <= binned[m][k] < bins0
    ensures forall k :: 0 <= k < t ==> ColumnVotes(binned, k, n, bins0) == n
    ensures TotalVotes(binned, n, bins0, t) == n * t
  {
    forall k | 0 <= k < t
      ensures ColumnVotes(binned, k, n, bins0) == n
    {
      ColumnSum(binned, k, n, bins0);
    }
    TotalSum(binned, n, bins0, t);
  }

  /** The state of the accumulator while the votes of points [0, n) are in. */
  ghost predicate Tallied(image: array2<real>, binned: seq<seq<int>>, n: nat)
    reads image
    requires n <= |binned|
    requires forall m :: 0 <= m < |binned| ==> |binned[m]| == image.Length1
  {
    forall i, k :: 0 <= i < image.Length0 && 0 <= k < image.Length1 ==>
      image[i, k] == Votes(binned, i, k, n) as real
  }

  /** Adds the votes of one point: at each angle k, one vote in the cell of its r bin
      row[k] and angle index thetaIdx[k]. */
  method AddVotes(image: array2<real>, row: seq<int>, thetaIdx: seq<int>)
    requires |row| == image.Length1 && |thetaIdx| == image.Length1
    requires forall k :: 0 <= k < |row| ==> 0 <= row[k] < image.Length0 && thetaIdx[k] == k
    modifies image
    ensures forall i, k :: 0 <= i < image.Length0 && 0 <= k < image.Length1 ==>
      image[i, k] == old(image[i, k]) + (if row[k] == i then 1.0 else 0.0)
  {
    for k := 0 to |row|
      invariant forall i, c :: 0 <= i < image.Length0 && 0 <= c < image.Length1 ==>
        image[i, c] == old(image[i, c]) + (if c < k && row[c] == i then 1.0 else 0.0)
    {
      image[row[k], thetaIdx[k]] := image[row[k], thetaIdx[k]] + 1.0;
    }
  }

  /** np.zeros(bins) followed by one vote per (point, angle) pair: cell (i, k) ends
      up with the number of points whose r at angle k falls in bin i. */
  method Tally(binned: seq<seq<int>>, thetaIdx: seq<int>, bins0: nat, t: nat) returns (image: array2<real>)
    requires forall m :: 0 <= m < |binned| ==> |binned[m]| == t
    requires forall m, k :: 0 <= m < |binned| && 0 <= k < t ==> 0 <= binned[m][k] < bins0
    requires |thetaIdx| == t && forall k :: 0 <= k < t ==> thetaIdx[k] == k
    ensures fresh(image) && image.Length0 == bins0 && image.Length1 == t
    ensures Tallied(image, binned, |binned|)
  {
    image := new real[bins0, t]((i, k) => 0.0);
    for n := 0 to |binned|
      invariant Tallied(image, binned, n)
    {
      AddVotes(image, binned[n], thetaIdx);
    }
  }

  /** The image is the accumulator of the points: bins0 x |cs| cells, cell (i, k)
      holding the number of points whose r at angle k falls in r bin i. */
  ghost predicate Accumulates(image: array2<real>, points: seq<(real, real)>, cs: seq<real>, ss: seq<real>, bins0: nat)
    reads image
  {
    && |points| > 0 && |cs| == |ss| > 0
    && image.Length0 == bins0 && image.Length1 == |cs|
    && var rs := RMatrix(points, cs, ss);
       var binned := BinnedRs(rs, RBins(rs, |cs|, bins0));
       forall i, k :: 0 <= i < bins0 && 0 <= k < |cs| ==>
         image[i, k] == Votes(binned, i, k, |points|) as real
  }

  /** LinesFinder._create_accumulator: the r bins and the bins0 x |cs| image of
      votes, whose cell (i, k) counts the points whose r at angle k falls in bin i. */
  method CreateAccumulator(points: seq<(real, real)>, pi: real, cs: seq<real>, ss: seq<real>, bins0: nat)
    returns (image: array2<real>, rBins: seq<real>, binned: seq<seq<int>>)
    requires |points| > 0 && |cs| == |ss| > 0 && bins0 >= 1 && pi > 0.0
    ensures fresh(image) && image.Length0 == bins0 && image.Length1 == |cs|
    ensures rBins == RBins(RMatrix(points, cs, ss), |cs|, bins0)
    ensures binned == BinnedRs(RMatrix(points, cs, ss), rBins)
    ensures forall m :: 0 <= m < |binned| ==> |binned[m]| == |cs|
    ensures forall i, k :: 0 <= i < bins0 && 0 <= k < |cs| ==>
      image[i, k] == Votes(binned, i, k, |points|) as real
    ensures forall k :: 0 <= k < |cs| ==> ColumnVotes(binned, k, |points|, bins0) == |points|
    ensures TotalVotes(binned, |points|, bins0, |cs|) == |points| * |cs|
    ensures Accumulates(image, points, cs, ss, bins0)
  {
    var t := |cs|;
    var rs := RMatrix(points, cs, ss);
    rBins := RBins(rs, t, bins0);
    binned := BinnedRs(rs, rBins);
    var thetaIdx := ThetaIndices(Thetas(pi, t));
    ThetaIndexIsPosition(pi, t);
    BinnedInRange(rs, t, bins0);
    Conservation(binned, |points|, bins0, t);
    image := Tally(binned, thetaIdx, bins0, t);
  }

  /** int() of a non-negative float: truncation toward zero. */
  function Trunc(x: real): (i: int)
    ensures x >= 0.0 ==> 0 <= i && i as real <= x < i as real + 1.0
    ensures x < 0.0 ==> i <= 0 && x <= i as real && (i as real) - 1.0 < x
  {
    if x >= 0.0 then x.Floor else -((-x).Floor)
  }

  /** The loop of find: one Line per peak (r_, θ_), taking r_bins[int(r_)] and
      thetas[int(θ_)]. */
  method PeaksToLines(peaks: seq<(real, real)>, rBins: seq<real>, thetas: seq<real>)
    returns (lines: seq<Line>)
    requires forall t :: 0 <= t < |peaks| ==> 0 <= Trunc(peaks[t].0) < |rBins| && 0 <= Trunc(peaks[t].1) < |thetas|
    ensures |lines| == |peaks|
    ensures forall t :: 0 <= t < |lines| ==> lines[t] == Line(rBins[Trunc(peaks[t].0)], thetas[Trunc(peaks[t].1)])
  {
    lines := [];
    for t := 0 to |peaks|
      invariant |lines| == t
      invariant forall u :: 0 <= u < t ==> lines[u] == Line(rBins[Trunc(peaks[u].0)], thetas[Trunc(peaks[u].1)])
    {
      lines := lines + [Line(rBins[Trunc(peaks[t].0)], thetas[Trunc(peaks[t].1)])];
    }
  }

  /** The point found at (xs[n], ys[n]) as a row of the points array. */
  function Zip(xs: seq<real>, ys: seq<real>): (points: seq<(real, real)>)
    requires |xs| == |ys|
    ensures |points| == |xs|
    ensures forall n :: 0 <= n < |xs| ==> points[n] == (xs[n], ys[n])
  {
    seq(|xs|, n requires 0 <= n < |xs| => (xs[n], ys[n]))
  }

  /** The detected centres as the rows (x, y) of a points array: the points of the
      detection d that _find_points makes of data. */
  method DetectedPoints(data: array2<real>, threshold: real) returns (points: seq<(real, real)>, ghost d: Detection)
    ensures Detects(data, threshold, d) && points == Zip(d.xs, d.ys)
    ensures forall n :: 0 <= n < |points| ==>
      0.0 <= points[n].0 <= (data.Length0 - 1) as real && 0.0 <= points[n].1 <= (data.Length1 - 1) as real
  {
    var xs, ys, found := FindPoints(data, threshold);
    points := Zip(xs, ys);
    d := found;
  }

  /** The part of find after the empty guard: the accumulator of the points, the
      peaks detected in it, and one line per peak. */
  method VoteLines(points: seq<(real, real)>, rthetaThreshold: real, pi: real, cs: seq<real>, ss: seq<real>, bins0: nat)
    returns (lines: seq<Line>, image: array2<real>, rBins: seq<real>, peaks: seq<(real, real)>, ghost found: Detection)
    requires |points| > 0 && |cs| == |ss| > 0 && bins0 >= 1 && pi > 0.0
    ensures fresh(image)
    ensures rBins == RBins(RMatrix(points, cs, ss), |cs|, bins0)
    ensures Accumulates(image, points, cs, ss, bins0)
    ensures Detects(image, rthetaThreshold, found) && peaks == Zip(found.xs, found.ys)
    ensures |peaks| == |lines|
    ensures forall t :: 0 <= t < |lines| ==>
      && 0 <= Trunc(peaks[t].0) < bins0 && 0 <= Trunc(peaks[t].1) < |cs|
      && lines[t] == Line(rBins[Trunc(peaks[t].0)], Thetas(pi, |cs|)[Trunc(peaks[t].1)])
  {
    var bins, binned;
    image, bins, binned := CreateAccumulator(points, pi, cs, ss, bins0);
    label accumulated:
    peaks, found := DetectedPoints(image, rthetaThreshold);
    assert unchanged@accumulated(image);
    forall t | 0 <= t < |peaks|
      ensures 0 <= Trunc(peaks[t].0) < bins0 && 0 <= Trunc(peaks[t].1) < |cs|
    {
    }
    lines := PeaksToLines(peaks, bins, Thetas(pi, |cs|));
    rBins := bins;
  }

  /** LinesFinder.find: the points detected in the data vote into the accumulator,
      whose own detected peaks become lines. With no points it stops before building
      the accumulator and finds no line. */
  method Find(data: array2<real>, xyThreshold: real, rthetaThreshold: real,
              pi: real, cs: seq<real>, ss: seq<real>, bins0: nat)
    returns (lines: seq<Line>, points: seq<(real, real)>, accumulator: Option<array2<real>>,
             ghost rBins: seq<real>, ghost found: Detection, ghost peaks: seq<(real, real)>,
             ghost peaksFound: Option<Detection>)
    requires |cs| == |ss| > 0 && bins0 >= 1 && pi > 0.0
    ensures Detects(data, xyThreshold, found) && points == Zip(found.xs, found.ys)
    ensures forall n :: 0 <= n < |points| ==>
      0.0 <= points[n].0 <= (data.Length0 - 1) as real && 0.0 <= points[n].1 <= (data.Length1 - 1) as real
    ensures points == [] <==> accumulator.None?
    ensures points == [] ==> lines == [] && peaks == []
    ensures accumulator.Some? ==>
      && rBins == RBins(RMatrix(points, cs, ss), |cs|, bins0)
      && Accumulates(accumulator.value, points, cs, ss, bins0)
      && peaksFound.Some?
      && Detects(accumulator.value, rthetaThreshold, peaksFound.value)
      && peaks == Zip(peaksFound.value.xs, peaksFound.value.ys)
    ensures |peaks| == |lines|
    ensures forall t :: 0 <= t < |lines| ==>
      && 0 <= Trunc(peaks[t].0) < bins0 && 0 <= Trunc(peaks[t].1) < |cs|
      && lines[t] == Line(rBins[Trunc(peaks[t].0)], Thetas(pi, |cs|)[Trunc(peaks[t].1)])
  {
    points, found := DetectedPoints(data, xyThreshold);
    if |points| == 0 {
      return [], points, None, [], found, [], None;
    }
    var image, bins;
    ghost var found2;
    label detected:
    lines, image, bins, peaks, found2 := VoteLines(points, rthetaThreshold, pi, cs, ss, bins0);
    assert unchanged@detected(data, found.maxima, found.labels);
    accumulator, rBins, peaksFound := Some(image), bins, Some(found2);
  }
}
