/** The local-maximum point detector of src/linefinder/pointsfinder.py: a 5x5
    maximum and minimum filter, the mask of cells that are their window's maximum
    and whose window spreads by more than the threshold, the 4-connected
    components of that mask and the centres of their bounding boxes. The filter
    window is clipped to the grid, which gives the same extremes as scipy's
    default reflecting boundary. */
module PointsFinder {

  import opened Errors
  import opened Labelling

  /** The data must be two-dimensional; shape is the array's shape. */
  function CheckShape(shape: seq<nat>): (r: Result<(nat, nat)>)
    ensures r.Ok? <==> |shape| == 2
    ensures r.Ok? ==> r.value == (shape[0], shape[1])
    ensures r.Err? ==> r.error == ValueError("'points' must be a 2D array")
  {
    if |shape| != 2 then Err(ValueError("'points' must be a 2D array")) else Ok((shape[0], shape[1]))
  }

  /** (a, b) lies in the 5x5 window centred on (i, j), clipped to the grid. */
  ghost predicate InWindow(data: array2<real>, i: int, j: int, a: int, b: int)
  {
    && 0 <= a < data.Length0 && 0 <= b < data.Length1
    && -2 <= a - i <= 2 && -2 <= b - j <= 2
  }

  /** The first and one-past-last index of a clipped window along an axis of length n. */
  function Low(i: int): int { if i - 2 < 0 then 0 else i - 2 }
  function High(i: int, n: int): int { if n < i + 3 then n else i + 3 }

  /** The largest value in row a between columns b0 (inclusive) and b1 (exclusive). */
  function RowMax(data: array2<real>, a: int, b0: int, b1: int): (m: real)
    reads data
    requires 0 <= a < data.Length0 && 0 <= b0 < b1 <= data.Length1
    ensures forall b :: b0 <= b < b1 ==> data[a, b] <= m
    ensures exists b :: b0 <= b < b1 && data[a, b] == m
    decreases b1 - b0
  {
    if b1 - b0 == 1 then data[a, b0]
    else
      var m := RowMax(data, a, b0, b1 - 1);
      if m < data[a, b1 - 1] then data[a, b1 - 1] else m
  }

  /** The smallest value in row a between columns b0 (inclusive) and b1 (exclusive). */
  function RowMin(data: array2<real>, a: int, b0: int, b1: int): (m: real)
    reads data
    requires 0 <= a < data.Length0 && 0 <= b0 < b1 <= data.Length1
    ensures forall b :: b0 <= b < b1 ==> m <= data[a, b]
    ensures exists b :: b0 <= b < b1 && data[a, b] == m
    decreases b1 - b0
  {
    if b1 - b0 == 1 then data[a, b0]
    else
      var m := RowMin(data, a, b0, b1 - 1);
      if data[a, b1 - 1] < m then data[a, b1 - 1] else m
  }

  /** The largest value of the rectangle [a0, a1) x [b0, b1). */
  function BoxMax(data: array2<real>, a0: int, a1: int, b0: int, b1: int): (m: real)
    reads data
    requires 0 <= a0 < a1 <= data.Length0 && 0 <= b0 < b1 <= data.Length1
    ensures forall a, b :: a0 <= a < a1 && b0 <= b < b1 ==> data[a, b] <= m
    ensures exists a, b :: a0 <= a < a1 && b0 <= b < b1 && data[a, b] == m
    decreases a1 - a0
  {
    var r := RowMax(data, a1 - 1, b0, b1);
    if a1 - a0 == 1 then r
    else
      var m := BoxMax(data, a0, a1 - 1, b0, b1);
      if m < r then r else m
  }

  /** The smallest value of the rectangle [a0, a1) x [b0, b1). */
  function BoxMin(data: array2<real>, a0: int, a1: int, b0: int, b1: int): (m: real)
    reads data
    requires 0 <= a0 < a1 <= data.Length0 && 0 <= b0 < b1 <= data.Length1
    ensures forall a, b :: a0 <= a < a1 && b0 <= b < b1 ==> m <= data[a, b]
    ensures exists a, b :: a0 <= a < a1 && b0 <= b < b1 && data[a, b] == m
    decreases a1 - a0
  {
    var r := RowMin(data, a1 - 1, b0, b1);
    if a1 - a0 == 1 then r
    else
      var m := BoxMin(data, a0, a1 - 1, b0, b1);
      if r < m then r else m
  }

  /** maximum_filter(data, 5) at (i, j): the maximum over the clipped window. */
  function WindowMax(data: array2<real>, i: int, j: int): (m: real)
    reads data
    requires 0 <= i < data.Length0 && 0 <= j < data.Length1
    ensures forall a, b :: InWindow(data, i, j, a, b) ==> data[a, b] <= m
    ensures exists a, b :: InWindow(data, i, j, a, b) && data[a, b] == m
  {
    var m := BoxMax(data, Low(i), High(i, data.Length0), Low(j), High(j, data.Length1));
    assert forall a, b :: InWindow(data, i, j, a, b) ==>
      Low(i) <= a < High(i, data.Length0) && Low(j) <= b < High(j, data.Length1);
    m
  }

  /** minimum_filter(data, 5) at (i, j): the minimum over the clipped window. */
  function WindowMin(data: array2<real>, i: int, j: int): (m: real)
    reads data
    requires 0 <= i < data.Length0 && 0 <= j < data.Length1
    ensures forall a, b :: InWindow(data, i, j, a, b) ==> m <= data[a, b]
    ensures exists a, b :: InWindow(data, i, j, a, b) && data[a, b] == m
  {
    var m := BoxMin(data, Low(i), High(i, data.Length0), Low(j), High(j, data.Length1));
    assert forall a, b :: InWindow(data, i, j, a, b) ==>
      Low(i) <= a < High(i, data.Length0) && Low(j) <= b < High(j, data.Length1);
    m
  }

  /** Cell (i, j) is a detected maximum: it equals the maximum of its window, and
      the window's maximum exceeds its minimum by strictly more than threshold. */
  ghost predicate Marked(data: array2<real>, threshold: real, i: int, j: int)
    reads data
    requires 0 <= i < data.Length0 && 0 <= j < data.Length1
  {
    data[i, j] == WindowMax(data, i, j) && WindowMax(data, i, j) - WindowMin(data, i, j) > threshold
  }

  /** The mask of detected maxima: the filtered arrays, their comparison, and the
      in-place clearing of the cells whose window does not spread enough. */
  method DetectMaxima(data: array2<real>, threshold: real) returns (maxima: array2<bool>)
    ensures fresh(maxima) && maxima.Length0 == data.Length0 && maxima.Length1 == data.Length1
    ensures forall i, j :: 0 <= i < data.Length0 && 0 <= j < data.Length1 ==>
      (maxima[i, j] <==> Marked(data, threshold, i, j))
  {
    var W, H := data.Length0, data.Length1;
    var dataMax := new real[W, H]((i, j) reads data requires 0 <= i < W && 0 <= j < H => WindowMax(data, i, j));
    maxima := new bool[W, H]((i, j) reads data, dataMax requires 0 <= i < W && 0 <= j < H => data[i, j] == dataMax[i, j]);
    var dataMin := new real[W, H]((i, j) reads data requires 0 <= i < W && 0 <= j < H => WindowMin(data, i, j));
    var diff := new bool[W, H]((i, j) reads dataMax, dataMin requires 0 <= i < W && 0 <= j < H =>
      dataMax[i, j] - dataMin[i, j] > threshold);
    forall i, j | 0 <= i < W && 0 <= j < H && !diff[i, j] {
      maxima[i, j] := false;
    }
  }

  /** A detected maximum is at least every value of its window. */
  lemma MarkedDominatesWindow(data: array2<real>, threshold: real, i: int, j: int, a: int, b: int)
    requires 0 <= i < data.Length0 && 0 <= j < data.Length1 && Marked(data, threshold, i, j)
    requires InWindow(data, i, j, a, b)
    ensures data[a, b] <= data[i, j]
  {
  }

  /** Raising the threshold never adds a detected maximum. */
  lemma ThresholdMonotone(data: array2<real>, t1: real, t2: real, i: int, j: int)
    requires 0 <= i < data.Length0 && 0 <= j < data.Length1 && t1 <= t2
    ensures Marked(data, t2, i, j) ==> Marked(data, t1, i, j)
  {
  }

  /** In a constant grid every window spreads by zero, so a threshold of zero or
      more marks nothing. */
  lemma ConstantGridUnmarked(data: array2<real>, threshold: real, v: real, i: int, j: int)
    requires forall a, b :: 0 <= a < data.Length0 && 0 <= b < data.Length1 ==> data[a, b] == v
    requires 0 <= i < data.Length0 && 0 <= j < data.Length1 && threshold >= 0.0
    ensures !Marked(data, threshold, i, j)
  {
    assert InWindow(data, i, j, i, j);
  }

  /** The centre of the slice [start, stop) along one axis. */
  function Centre(start: int, stop: int): real
  {
    ((start + stop - 1) as real) / 2.0
  }

  /** The centre of a non-empty slice inside [0, n) lies between its first and last
      index, so inside [0, n - 1], and is a whole or half integer. */
  lemma CentreInside(start: int, stop: int, n: int)
    requires 0 <= start < stop <= n
    ensures start as real <= Centre(start, stop) <= (stop - 1) as real
    ensures 0.0 <= Centre(start, stop) <= (n - 1) as real
    ensures (2.0 * Centre(start, stop)).Floor as real == 2.0 * Centre(start, stop)
  {
    var m := start + stop - 1;
    assert 2.0 * Centre(start, stop) == m as real;
    assert (m as real).Floor == m;
    assert start as real <= (m as real) / 2.0 <= (stop - 1) as real;
  }

  /** The centres of the boxes, in label order: xs from the row slices and ys from
      the column slices. */
  method Centres(boxes: seq<Option<Extent>>) returns (xs: seq<real>, ys: seq<real>)
    requires forall t :: 0 <= t < |boxes| ==> boxes[t].Some?
    ensures |xs| == |boxes| && |ys| == |boxes|
    ensures forall t :: 0 <= t < |boxes| ==>
      xs[t] == Centre(boxes[t].value.rowStart, boxes[t].value.rowStop) &&
      ys[t] == Centre(boxes[t].value.colStart, boxes[t].value.colStop)
  {
    xs, ys := [], [];
    for t := 0 to |boxes|
      invariant |xs| == t && |ys| == t
      invariant forall u :: 0 <= u < t ==>
        xs[u] == Centre(boxes[u].value.rowStart, boxes[u].value.rowStop) &&
        ys[u] == Centre(boxes[u].value.colStart, boxes[u].value.colStop)
    {
      var e := boxes[t].value;
      xs := xs + [Centre(e.rowStart, e.rowStop)];
      ys := ys + [Centre(e.colStart, e.colStop)];
    }
  }

  /** A walk that starts at a cell without neighbours in s never leaves it. */
  lemma LinkedFromIsolated(s: set<(int, int)>, a: (int, int), b: (int, int))
    requires Linked(s, a, b)
    requires forall c :: c in s ==> !Adjacent(a.0, a.1, c.0, c.1)
    ensures b == a
  {
    var p :| IsPath(s, p) && p[0] == a && p[|p| - 1] == b;
    PathSecond(s, p);
  }

  /** The second cell of a walk is a neighbour of the first. */
  lemma PathSecond(s: set<(int, int)>, p: seq<(int, int)>)
    requires IsPath(s, p)
    ensures |p| > 1 ==> p[1] in s && Adjacent(p[0].0, p[0].1, p[1].0, p[1].1)
  {
    if |p| > 1 {
      assert StepAt(p, 0);
    }
  }

  /** A marked cell with no marked 4-neighbour is the only cell of its label. */
  lemma IsolatedCellAlone(mask: array2<bool>, labels: array2<int>, seeds: seq<(int, int)>, i: int, j: int)
    requires SameShape(mask, labels) && SeededFrom(MarkedCells(mask), labels, seeds)
    requires 0 <= i < mask.Length0 && 0 <= j < mask.Length1 && 0 < labels[i, j] <= |seeds|
    requires forall a, b :: 0 <= a < mask.Length0 && 0 <= b < mask.Length1 && Adjacent(i, j, a, b) ==> !mask[a, b]
    ensures forall a, b :: HasLabel(labels, labels[i, j], a, b) ==> a == i && b == j
  {
    forall a, b | HasLabel(labels, labels[i, j], a, b)
      ensures a == i && b == j
    {
      SameLabelLinked(mask, labels, seeds, (i, j), (a, b));
      LinkedFromIsolated(MarkedCells(mask), (i, j), (a, b));
    }
  }

  /** The tight box of a label carried by the single cell (i, j) is that cell. */
  lemma SingleCellBox(labels: array2<int>, l: int, e: Extent, i: int, j: int)
    requires BoxedUpTo(labels, l, e, labels.Length0, 0)
    requires forall a, b :: HasLabel(labels, l, a, b) ==> a == i && b == j
    ensures e == Extent(i, i + 1, j, j + 1)
  {
  }

  /** The box reported for the label of a cell that is the only one carrying it. */
  lemma IsolatedBox(mask: array2<bool>, labels: array2<int>, seeds: seq<(int, int)>,
                    boxes: seq<Option<Extent>>, i: int, j: int)
    requires SameShape(mask, labels) && SeededFrom(MarkedCells(mask), labels, seeds)
    requires IsObjects(labels, boxes) && |boxes| == |seeds|
    requires 0 <= i < mask.Length0 && 0 <= j < mask.Length1 && 0 < labels[i, j] <= |seeds|
    requires forall a, b :: 0 <= a < mask.Length0 && 0 <= b < mask.Length1 && Adjacent(i, j, a, b) ==> !mask[a, b]
    ensures boxes[labels[i, j] - 1] == Some(Extent(i, i + 1, j, j + 1))
  {
    var l := labels[i, j];
    IsolatedCellAlone(mask, labels, seeds, i, j);
    assert HasLabel(labels, l, i, j);
    assert boxes[l - 1].Some? by {
      assert !Absent(labels, l);
    }
    assert BoxedUpTo(labels, l, boxes[l - 1].value, labels.Length0, 0);
    SingleCellBox(labels, l, boxes[l - 1].value, i, j);
  }

  /** A marked cell with no marked 4-neighbour is a component of its own, whose box
      is the cell itself, so its centre is the cell. */
  lemma IsolatedCellCentre(mask: array2<bool>, labels: array2<int>, count: nat, seeds: seq<(int, int)>,
                           boxes: seq<Option<Extent>>, i: int, j: int)
    requires IsLabelling(mask, labels, count, seeds) && IsObjects(labels, boxes) && |boxes| == count
    requires 0 <= i < mask.Length0 && 0 <= j < mask.Length1 && mask[i, j]
    requires forall a, b :: 0 <= a < mask.Length0 && 0 <= b < mask.Length1 && Adjacent(i, j, a, b) ==> !mask[a, b]
    ensures 1 <= labels[i, j] <= |boxes|
    ensures boxes[labels[i, j] - 1] == Some(Extent(i, i + 1, j, j + 1))
    ensures Centre(i, i + 1) == i as real && Centre(j, j + 1) == j as real
  {
    IsolatedBox(mask, labels, seeds, boxes, i, j);
  }

  /** ndimage.label followed by ndimage.find_objects: the components of the mask
      and one box per component, each inside the grid. */
  method LabelBoxes(mask: array2<bool>)
    returns (labels: array2<int>, count: nat, ghost seeds: seq<(int, int)>, boxes: seq<Option<Extent>>)
    ensures IsLabelling(mask, labels, count, seeds)
    ensures IsObjects(labels, boxes) && |boxes| == count
    ensures forall t :: 0 <= t < count ==>
      && boxes[t].Some?
      && 0 <= boxes[t].value.rowStart < boxes[t].value.rowStop <= mask.Length0
      && 0 <= boxes[t].value.colStart < boxes[t].value.colStop <= mask.Length1
  {
    labels, count, seeds := Label(mask);
    boxes := FindObjects(labels, count);
    EveryComponentBoxed(mask, labels, count, seeds, boxes);
    forall t | 0 <= t < count
      ensures 0 <= boxes[t].value.rowStart < boxes[t].value.rowStop <= mask.Length0
      ensures 0 <= boxes[t].value.colStart < boxes[t].value.colStop <= mask.Length1
    {
      BoxInGrid(labels, boxes, t);
    }
  }

  /** What _find_points computes for a grid: the mask of marked cells, its 4-connected
      labelling with count components, their bounding boxes, and one centre per
      component in label order. */
  datatype Detection = Detection(xs: seq<real>, ys: seq<real>, maxima: array2<bool>, labels: array2<int>,
                                 count: nat, seeds: seq<(int, int)>, boxes: seq<Option<Extent>>)

  /** The detection d is the one _find_points makes of data at threshold: the mask is
      exactly the marked cells, labels and boxes are those of ndimage.label and
      ndimage.find_objects, and every centre is its box's midpoint, inside the grid. */
  ghost predicate Detects(data: array2<real>, threshold: real, d: Detection)
    reads data, d.maxima, d.labels
  {
    && d.maxima.Length0 == data.Length0 && d.maxima.Length1 == data.Length1
    && (forall i, j :: 0 <= i < data.Length0 && 0 <= j < data.Length1 ==>
         (d.maxima[i, j] <==> Marked(data, threshold, i, j)))
    && IsLabelling(d.maxima, d.labels, d.count, d.seeds)
    && IsObjects(d.labels, d.boxes) && |d.boxes| == d.count
    && |d.xs| == d.count && |d.ys| == d.count
    && (forall t :: 0 <= t < d.count ==>
         && d.boxes[t].Some?
         && d.xs[t] == Centre(d.boxes[t].value.rowStart, d.boxes[t].value.rowStop)
         && d.ys[t] == Centre(d.boxes[t].value.colStart, d.boxes[t].value.colStop))
    && (forall t :: 0 <= t < d.count ==>
         0.0 <= d.xs[t] <= (data.Length0 - 1) as real && 0.0 <= d.ys[t] <= (data.Length1 - 1) as real)
  }

  /** PointsFinder._find_points: the centres of the 4-connected components of the
      detected maxima, one per component, in label order. The ghost result is the
      whole detection, with the intermediate mask, labels and boxes. */
  method FindPoints(data: array2<real>, threshold: real)
    returns (xs: seq<real>, ys: seq<real>, ghost d: Detection)
    ensures Detects(data, threshold, d) && d.xs == xs && d.ys == ys
    ensures |xs| == |ys|
    ensures forall t :: 0 <= t < |xs| ==>
      0.0 <= xs[t] <= (data.Length0 - 1) as real && 0.0 <= ys[t] <= (data.Length1 - 1) as real
  {
    var mask := DetectMaxima(data, threshold);
    var labelled, n, s, slices := LabelBoxes(mask);
    xs, ys := Centres(slices);
    forall t | 0 <= t < n
      ensures 0.0 <= xs[t] <= (data.Length0 - 1) as real && 0.0 <= ys[t] <= (data.Length1 - 1) as real
    {
      var e := slices[t].value;
      CentreInside(e.rowStart, e.rowStop, data.Length0);
      CentreInside(e.colStart, e.colStop, data.Length1);
    }
    d := Detection(xs, ys, mask, labelled, n, s, slices);
  }

  /** A grid with no marked cell yields no points: every label of a detection
      names a marked seed cell, so there are no labels and no centres. */
  lemma NoMarkedNoPoints(data: array2<real>, threshold: real, d: Detection)
    requires Detects(data, threshold, d)
    requires forall i, j :: 0 <= i < data.Length0 && 0 <= j < data.Length1 ==> !Marked(data, threshold, i, j)
    ensures d.xs == [] && d.ys == []
  {
    LabelledMarked(d.maxima, d.labels, d.count, d.seeds);
  }

  /** A constant grid with a threshold of zero or more yields no points. */
  lemma ConstantNoPoints(data: array2<real>, threshold: real, v: real, d: Detection)
    requires forall a, b :: 0 <= a < data.Length0 && 0 <= b < data.Length1 ==> data[a, b] == v
    requires threshold >= 0.0 && Detects(data, threshold, d)
    ensures d.xs == [] && d.ys == []
  {
    forall i, j | 0 <= i < data.Length0 && 0 <= j < data.Length1
      ensures !Marked(data, threshold, i, j)
    {
      ConstantGridUnmarked(data, threshold, v, i, j);
    }
    NoMarkedNoPoints(data, threshold, d);
  }
}
