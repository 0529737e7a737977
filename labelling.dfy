/** Connected-component labelling of a boolean mask with 4-connectivity, and the
    bounding boxes of the components: scipy.ndimage.label with its default cross
    structure and scipy.ndimage.find_objects, as src/linefinder/pointsfinder.py uses
    them. Components are numbered 1, 2, ... in the raster (row-major) order of their
    first cell, which is the order scipy gives them. */
module Labelling {

  import opened Errors

  /** Cells (i, j) and (a, b) share an edge. */
  predicate Adjacent(i: int, j: int, a: int, b: int)
  {
    (i == a && (j - b == 1 || b - j == 1)) || (j == b && (i - a == 1 || a - i == 1))
  }

  /** (a, b) comes strictly before (i, j) in row-major scan order. */
  predicate RasterBefore(a: int, b: int, i: int, j: int)
  {
    a < i || (a == i && b < j)
  }

  ghost predicate InGrid(mask: array2<bool>, c: (int, int))
  {
    0 <= c.0 < mask.Length0 && 0 <= c.1 < mask.Length1
  }

  /** The marked cells of the mask, as a set of (row, column) pairs. */
  ghost function MarkedCells(mask: array2<bool>): (s: set<(int, int)>)
    reads mask
    ensures forall c :: c in s <==> InGrid(mask, c) && mask[c.0, c.1]
  {
    set i, j | 0 <= i < mask.Length0 && 0 <= j < mask.Length1 && mask[i, j] :: (i, j)
  }

  /** Positions t and t + 1 of the walk p are 4-neighbours. */
  ghost predicate StepAt(p: seq<(int, int)>, t: int)
    requires 0 <= t < |p| - 1
  {
    Adjacent(p[t].0, p[t].1, p[t + 1].0, p[t + 1].1)
  }

  /** A non-empty walk inside the cell set s, each step to a 4-neighbour. */
  ghost predicate IsPath(s: set<(int, int)>, p: seq<(int, int)>)
  {
    && |p| > 0
    && (forall t :: 0 <= t < |p| ==> p[t] in s)
    && (forall t :: 0 <= t < |p| - 1 ==> StepAt(p, t))
  }

  /** a and b lie in the same 4-connected component of the cell set s. */
  ghost predicate Linked(s: set<(int, int)>, a: (int, int), b: (int, int))
  {
    exists p :: IsPath(s, p) && p[0] == a && p[|p| - 1] == b
  }

  ghost predicate SameShape(mask: array2<bool>, labels: array2<int>)
  {
    labels.Length0 == mask.Length0 && labels.Length1 == mask.Length1
  }

  /** Labels lie in [0, k] and only marked cells carry a non-zero label. */
  ghost predicate Ranged(mask: array2<bool>, labels: array2<int>, k: int)
    reads mask, labels
    requires SameShape(mask, labels)
  {
    forall i, j :: 0 <= i < mask.Length0 && 0 <= j < mask.Length1 ==>
      0 <= labels[i, j] <= k && (labels[i, j] != 0 ==> mask[i, j])
  }

  /** Every marked neighbour of a labelled cell carries the same label. */
  ghost predicate Closed(mask: array2<bool>, labels: array2<int>)
    reads mask, labels
    requires SameShape(mask, labels)
  {
    forall i, j, a, b {:trigger Adjacent(i, j, a, b)} ::
      && 0 <= i < mask.Length0 && 0 <= j < mask.Length1
      && 0 <= a < mask.Length0 && 0 <= b < mask.Length1
      && Adjacent(i, j, a, b) && labels[i, j] != 0 && mask[a, b]
      ==> labels[a, b] == labels[i, j]
  }

  /** Each labelled cell is linked, inside s, to the seed of its label. */
  ghost predicate SeededFrom(s: set<(int, int)>, labels: array2<int>, seeds: seq<(int, int)>)
    reads labels
  {
    forall i, j :: 0 <= i < labels.Length0 && 0 <= j < labels.Length1 && 0 < labels[i, j] <= |seeds| ==>
      Linked(s, seeds[labels[i, j] - 1], (i, j))
  }

  /** What ndimage.label promises, with the seed (first cell in raster order) of
      every component: labels 1..count, one per 4-connected component of the mask,
      numbered in the raster order of their seeds. */
  ghost predicate IsLabelling(mask: array2<bool>, labels: array2<int>, count: nat, seeds: seq<(int, int)>)
    reads mask, labels
  {
    && SameShape(mask, labels)
    && |seeds| == count
    && (forall i, j :: 0 <= i < mask.Length0 && 0 <= j < mask.Length1 ==>
          0 <= labels[i, j] <= count && (labels[i, j] == 0 <==> !mask[i, j]))
    && Closed(mask, labels)
    && (forall k :: 0 <= k < count ==>
          InGrid(mask, seeds[k]) && labels[seeds[k].0, seeds[k].1] == k + 1)
    && (forall k, k' :: 0 <= k < k' < count ==>
          RasterBefore(seeds[k].0, seeds[k].1, seeds[k'].0, seeds[k'].1))
    && SeedsFirst(labels, seeds)
    && SeededFrom(MarkedCells(mask), labels, seeds)
  }

  /** A labelling with at least one label has a marked cell: the seed of label 1. */
  lemma LabelledMarked(mask: array2<bool>, labels: array2<int>, count: nat, seeds: seq<(int, int)>)
    requires IsLabelling(mask, labels, count, seeds)
    ensures count > 0 ==> exists i, j :: 0 <= i < mask.Length0 && 0 <= j < mask.Length1 && mask[i, j]
  {
    if count > 0 {
      var s := seeds[0];
      assert InGrid(mask, s) && labels[s.0, s.1] == 1;
      assert mask[s.0, s.1];
    }
  }

  lemma LinkedSelf(s: set<(int, int)>, a: (int, int))
    requires a in s
    ensures Linked(s, a, a)
  {
    assert IsPath(s, [a]);
  }

  /** A link can be extended by one step to a neighbour inside s. */
  lemma LinkedStep(s: set<(int, int)>, a: (int, int), b: (int, int), c: (int, int))
    requires Linked(s, a, b) && c in s && Adjacent(b.0, b.1, c.0, c.1)
    ensures Linked(s, a, c)
  {
    var p :| IsPath(s, p) && p[0] == a && p[|p| - 1] == b;
    var q := p + [c];
    forall t | 0 <= t < |q| - 1
      ensures StepAt(q, t)
    {
      if t < |p| - 1 {
        assert StepAt(p, t);
      }
    }
    assert q[|q| - 1] == c;
    assert IsPath(s, q);
  }

  /** The direction in which (x, y) lies from its 4-neighbour (i, j). */
  function Direction(i: int, j: int, x: int, y: int): (e: int)
    requires Adjacent(i, j, x, y)
    ensures 0 <= e < 4 && Neighbour(i, j, e) == (x, y)
  {
    if x == i - 1 then 0 else if x == i + 1 then 1 else if y == j - 1 then 2 else 3
  }

  lemma SubsetSize<T>(a: set<T>, b: set<T>)
    requires a <= b
    ensures |a| <= |b|
  {
    assert b == a + (b - a);
    assert a * (b - a) == {};
  }

  /** The d-th 4-neighbour of (a, b): up, down, left, right. */
  function Neighbour(a: int, b: int, d: int): (n: (int, int))
    requires 0 <= d < 4
    ensures Adjacent(a, b, n.0, n.1)
  {
    if d == 0 then (a - 1, b) else if d == 1 then (a + 1, b) else if d == 2 then (a, b - 1) else (a, b + 1)
  }

  /** The cells reached by a flood fill from order[0]: each later cell was reached
      from an earlier one, parent[t], that it is a 4-neighbour of. */
  ghost predicate IsTree(order: seq<(int, int)>, parent: seq<int>)
  {
    && |order| == |parent| >= 1
    && (forall t :: 0 < t < |order| ==>
          0 <= parent[t] < t && Adjacent(order[parent[t]].0, order[parent[t]].1, order[t].0, order[t].1))
  }

  /** The state of the flood fill with label k from order[0], over a grid whose
      labels before the fill are saved in before: the cells of order are exactly
      those given label k, each reached from an earlier one; the neighbours of
      order[..head] and the first d neighbours of order[head] have been looked at;
      done is the set of cells in order. */
  ghost predicate FloodState(mask: array2<bool>, labels: array2<int>, before: array2<int>, k: int,
                             order: seq<(int, int)>, parent: seq<int>, head: int, d: int,
                             done: set<(int, int)>, grid: set<(int, int)>)
    reads mask, labels, before
  {
    && SameShape(mask, labels) && labels != before
    && FloodTree(mask, before, k, order, parent, head, d, done, grid)
    && (forall i, j :: 0 <= i < mask.Length0 && 0 <= j < mask.Length1 ==>
          labels[i, j] == if (i, j) in done then k else before[i, j])
  }

  /** The part of the flood state that does not depend on the current labels. */
  ghost predicate FloodTree(mask: array2<bool>, before: array2<int>, k: int,
                            order: seq<(int, int)>, parent: seq<int>, head: int, d: int,
                            done: set<(int, int)>, grid: set<(int, int)>)
    reads mask, before
  {
    && SameShape(mask, before) && k >= 1
    && 0 <= head <= |order| && 0 <= d <= 4 && (d > 0 ==> head < |order|)
    && IsTree(order, parent)
    && (forall t :: 0 <= t < |order| ==>
          && 0 <= order[t].0 < mask.Length0 && 0 <= order[t].1 < mask.Length1
          && mask[order[t].0, order[t].1] && before[order[t].0, order[t].1] == 0 && order[t] in done)
    && (forall t, e :: 0 <= t < |order| && 0 <= e < 4 && (t < head || (t == head && e < d)) ==>
          var n := Neighbour(order[t].0, order[t].1, e);
          0 <= n.0 < mask.Length0 && 0 <= n.1 < mask.Length1 && mask[n.0, n.1] ==> n in done || before[n.0, n.1] != 0)
    && (forall c :: c in done ==> c in order)
    && done <= grid && |done| == |order|
    && (forall i, j :: 0 <= i < mask.Length0 && 0 <= j < mask.Length1 ==> (i, j) in grid)
  }

  /** A neighbour that is already labelled, unmarked or outside the grid is passed over. */
  lemma VisitSkip(mask: array2<bool>, before: array2<int>, k: int,
                  order: seq<(int, int)>, parent: seq<int>, head: int, d: int,
                  done: set<(int, int)>, grid: set<(int, int)>)
    requires FloodTree(mask, before, k, order, parent, head, d, done, grid) && head < |order| && d < 4
    requires var n := Neighbour(order[head].0, order[head].1, d);
      0 <= n.0 < mask.Length0 && 0 <= n.1 < mask.Length1 && mask[n.0, n.1] ==> n in done || before[n.0, n.1] != 0
    ensures FloodTree(mask, before, k, order, parent, head, d + 1, done, grid)
  {
  }

  /** An unlabelled marked neighbour joins the search tree as a child of order[head]. */
  lemma VisitAdd(mask: array2<bool>, before: array2<int>, k: int,
                 order: seq<(int, int)>, parent: seq<int>, head: int, d: int,
                 done: set<(int, int)>, grid: set<(int, int)>, n: (int, int))
    requires FloodTree(mask, before, k, order, parent, head, d, done, grid) && head < |order| && d < 4
    requires n == Neighbour(order[head].0, order[head].1, d)
    requires 0 <= n.0 < mask.Length0 && 0 <= n.1 < mask.Length1 && mask[n.0, n.1]
    requires n !in done && before[n.0, n.1] == 0
    ensures FloodTree(mask, before, k, order + [n], parent + [head], head, d + 1, done + {n}, grid)
  {
    var order', parent' := order + [n], parent + [head];
    assert IsTree(order', parent') by {
      forall t | 0 < t < |order'|
        ensures 0 <= parent'[t] < t && Adjacent(order'[parent'[t]].0, order'[parent'[t]].1, order'[t].0, order'[t].1)
      {
        if t < |order| {
          assert parent'[t] == parent[t] && order'[t] == order[t] && order'[parent'[t]] == order[parent[t]];
        }
      }
    }
  }

  /** Looks at the d-th neighbour of order[head]: if it is an unlabelled marked
      cell of the grid, it is given label k and appended to order. */
  method Visit(mask: array2<bool>, labels: array2<int>, ghost before: array2<int>, k: int,
               order: seq<(int, int)>, ghost parent: seq<int>, head: int, d: int,
               ghost done: set<(int, int)>, ghost grid: set<(int, int)>)
    returns (order': seq<(int, int)>, ghost parent': seq<int>, ghost done': set<(int, int)>)
    requires FloodState(mask, labels, before, k, order, parent, head, d, done, grid)
    requires head < |order| && d < 4
    modifies labels
    ensures FloodState(mask, labels, before, k, order', parent', head, d + 1, done', grid)
    ensures order'[0] == order[0] && |order| <= |order'|
  {
    var n := Neighbour(order[head].0, order[head].1, d);
    order', parent', done' := order, parent, done;
    if 0 <= n.0 < mask.Length0 && 0 <= n.1 < mask.Length1 && mask[n.0, n.1] && labels[n.0, n.1] == 0 {
      VisitAdd(mask, before, k, order, parent, head, d, done, grid, n);
      labels[n.0, n.1] := k;
      order', parent', done' := order + [n], parent + [head], done + {n};
    } else {
      VisitSkip(mask, before, k, order, parent, head, d, done, grid);
    }
  }

  /** Looks at the four neighbours of order[head], in the order of Neighbour. */
  method Expand(mask: array2<bool>, labels: array2<int>, ghost before: array2<int>, k: int,
                order: seq<(int, int)>, ghost parent: seq<int>, head: int,
                ghost done: set<(int, int)>, ghost grid: set<(int, int)>)
    returns (order': seq<(int, int)>, ghost parent': seq<int>, ghost done': set<(int, int)>)
    requires FloodState(mask, labels, before, k, order, parent, head, 0, done, grid)
    requires head < |order|
    modifies labels
    ensures FloodState(mask, labels, before, k, order', parent', head + 1, 0, done', grid)
    ensures order'[0] == order[0]
  {
    order', parent', done' := order, parent, done;
    for d := 0 to 4
      invariant FloodState(mask, labels, before, k, order', parent', head, d, done', grid)
      invariant order'[0] == order[0] && |order| <= |order'|
      modifies labels
    {
      order', parent', done' := Visit(mask, labels, before, k, order', parent', head, d, done', grid);
    }
    Advance(mask, labels, before, k, order', parent', head, done', grid);
  }

  /** Once all four neighbours of order[head] have been looked at, the fill moves on. */
  lemma Advance(mask: array2<bool>, labels: array2<int>, before: array2<int>, k: int,
                order: seq<(int, int)>, parent: seq<int>, head: int,
                done: set<(int, int)>, grid: set<(int, int)>)
    requires FloodState(mask, labels, before, k, order, parent, head, 4, done, grid)
    ensures FloodState(mask, labels, before, k, order, parent, head + 1, 0, done, grid)
  {
  }

  /** The fill starts with the seed alone, labelled k. */
  lemma FloodStart(mask: array2<bool>, labels: array2<int>, before: array2<int>, k: int,
                   si: int, sj: int, grid: set<(int, int)>)
    requires SameShape(mask, labels) && SameShape(mask, before) && labels != before && k >= 1
    requires 0 <= si < mask.Length0 && 0 <= sj < mask.Length1 && mask[si, sj] && before[si, sj] == 0
    requires forall i, j :: 0 <= i < mask.Length0 && 0 <= j < mask.Length1 ==>
      labels[i, j] == if (i, j) == (si, sj) then k else before[i, j]
    requires grid == set i, j | 0 <= i < mask.Length0 && 0 <= j < mask.Length1 :: (i, j)
    ensures FloodState(mask, labels, before, k, [(si, sj)], [0], 0, 0, {(si, sj)}, grid)
  {
  }

  /** When every cell of order has been looked at, no k-cell has an unlabelled
      marked neighbour. */
  lemma FloodEnd(mask: array2<bool>, labels: array2<int>, before: array2<int>, k: int,
                 order: seq<(int, int)>, parent: seq<int>, done: set<(int, int)>, grid: set<(int, int)>)
    requires FloodState(mask, labels, before, k, order, parent, |order|, 0, done, grid)
    ensures forall i, j :: 0 <= i < mask.Length0 && 0 <= j < mask.Length1 ==>
      labels[i, j] == if (i, j) in order then k else before[i, j]
    ensures forall t, e :: 0 <= t < |order| && 0 <= e < 4 ==>
      var n := Neighbour(order[t].0, order[t].1, e);
      0 <= n.0 < mask.Length0 && 0 <= n.1 < mask.Length1 && mask[n.0, n.1] ==> labels[n.0, n.1] != 0
  {
  }

  /** Breadth-first flood fill from the seed (si, sj): gives label k to every
      unlabelled marked cell reachable from it, and returns those cells in the order
      they were labelled, with the search tree that reached them. The ghost array
      before holds the labels as they were on entry. */
  method Flood(mask: array2<bool>, labels: array2<int>, ghost before: array2<int>, si: int, sj: int, k: int)
    returns (order: seq<(int, int)>, ghost parent: seq<int>)
    requires SameShape(mask, labels) && SameShape(mask, before) && labels != before
    requires forall i, j :: 0 <= i < mask.Length0 && 0 <= j < mask.Length1 ==> labels[i, j] == before[i, j]
    requires 0 <= si < mask.Length0 && 0 <= sj < mask.Length1 && mask[si, sj] && labels[si, sj] == 0
    requires k >= 1
    modifies labels
    ensures IsTree(order, parent) && order[0] == (si, sj)
    ensures forall t :: 0 <= t < |order| ==>
      && 0 <= order[t].0 < mask.Length0 && 0 <= order[t].1 < mask.Length1
      && mask[order[t].0, order[t].1] && before[order[t].0, order[t].1] == 0
    ensures forall i, j :: 0 <= i < mask.Length0 && 0 <= j < mask.Length1 ==>
      labels[i, j] == if (i, j) in order then k else before[i, j]
    // no cell labelled k has an unlabelled marked neighbour
    ensures forall t, e :: 0 <= t < |order| && 0 <= e < 4 ==>
      var n := Neighbour(order[t].0, order[t].1, e);
      0 <= n.0 < mask.Length0 && 0 <= n.1 < mask.Length1 && mask[n.0, n.1] ==> labels[n.0, n.1] != 0
  {
    var W, H := mask.Length0, mask.Length1;
    ghost var grid := set i, j | 0 <= i < W && 0 <= j < H :: (i, j);
    labels[si, sj] := k;
    FloodStart(mask, labels, before, k, si, sj, grid);
    order, parent := [(si, sj)], [0];
    ghost var done := {(si, sj)};
    // order[..head] are the cells whose neighbours have been looked at
    var head := 0;
    while head < |order|
      invariant FloodState(mask, labels, before, k, order, parent, head, 0, done, grid)
      invariant order[0] == (si, sj)
      modifies labels
      decreases |grid| - head
    {
      order, parent, done := Expand(mask, labels, before, k, order, parent, head, done, grid);
      SubsetSize(done, grid);
      head := head + 1;
    }
    FloodEnd(mask, labels, before, k, order, parent, done, grid);
  }

  /** Every cell of a search tree whose cells lie in s is linked to the root. */
  lemma {:induction false} TreeLinked(s: set<(int, int)>, order: seq<(int, int)>, parent: seq<int>, t: int)
    requires IsTree(order, parent) && forall u :: 0 <= u < |order| ==> order[u] in s
    requires 0 <= t < |order|
    ensures Linked(s, order[0], order[t])
    decreases t
  {
    if t == 0 {
      LinkedSelf(s, order[0]);
    } else {
      TreeLinked(s, order, parent, parent[t]);
      LinkedStep(s, order[0], order[parent[t]], order[t]);
    }
  }

  /** After a fill with label k over labels whose components 1..k-1 were closed,
      all components are closed. */
  lemma FillClosed(mask: array2<bool>, labels: array2<int>, before: array2<int>, k: int, order: seq<(int, int)>)
    requires SameShape(mask, labels) && SameShape(mask, before) && k >= 1
    requires Ranged(mask, before, k - 1) && Closed(mask, before)
    requires forall t :: 0 <= t < |order| ==>
      && 0 <= order[t].0 < mask.Length0 && 0 <= order[t].1 < mask.Length1
      && mask[order[t].0, order[t].1] && before[order[t].0, order[t].1] == 0
    requires forall i, j :: 0 <= i < mask.Length0 && 0 <= j < mask.Length1 ==>
      labels[i, j] == if (i, j) in order then k else before[i, j]
    requires forall t, e :: 0 <= t < |order| && 0 <= e < 4 ==>
      var n := Neighbour(order[t].0, order[t].1, e);
      0 <= n.0 < mask.Length0 && 0 <= n.1 < mask.Length1 && mask[n.0, n.1] ==> labels[n.0, n.1] != 0
    ensures Ranged(mask, labels, k) && Closed(mask, labels)
  {
    forall i, j, x, y |
      && 0 <= i < mask.Length0 && 0 <= j < mask.Length1 && 0 <= x < mask.Length0 && 0 <= y < mask.Length1
      && Adjacent(i, j, x, y) && labels[i, j] != 0 && mask[x, y]
      ensures labels[x, y] == labels[i, j]
    {
      assert Adjacent(x, y, i, j);
      if (i, j) in order {
        var t :| 0 <= t < |order| && order[t] == (i, j);
        var e := Direction(i, j, x, y);
        assert labels[x, y] != 0;
      }
    }
  }

  /** After a fill with label k whose cells are all linked to seeds[k - 1], every
      labelled cell is linked to the seed of its label. */
  lemma FillSeeded(s: set<(int, int)>, labels: array2<int>, before: array2<int>, k: int,
                   seeds: seq<(int, int)>, order: seq<(int, int)>)
    requires labels.Length0 == before.Length0 && labels.Length1 == before.Length1
    requires k >= 1 && |seeds| == k && SeededFrom(s, before, seeds)
    requires forall t :: 0 <= t < |order| ==> Linked(s, seeds[k - 1], order[t])
    requires forall i, j :: 0 <= i < labels.Length0 && 0 <= j < labels.Length1 ==>
      labels[i, j] == if (i, j) in order then k else before[i, j]
    ensures SeededFrom(s, labels, seeds)
  {
    forall i, j | 0 <= i < labels.Length0 && 0 <= j < labels.Length1 && 0 < labels[i, j] <= |seeds|
      ensures Linked(s, seeds[labels[i, j] - 1], (i, j))
    {
      if (i, j) in order {
        var t :| 0 <= t < |order| && order[t] == (i, j);
      }
    }
  }

  /** The invariants of a labelling depend only on the label values. */
  lemma CopyKeeps(mask: array2<bool>, labels: array2<int>, copy: array2<int>, k: int,
                  s: set<(int, int)>, seeds: seq<(int, int)>)
    requires SameShape(mask, labels) && SameShape(mask, copy)
    requires forall i, j :: 0 <= i < mask.Length0 && 0 <= j < mask.Length1 ==> copy[i, j] == labels[i, j]
    requires Ranged(mask, labels, k) && Closed(mask, labels) && SeededFrom(s, labels, seeds)
    ensures Ranged(mask, copy, k) && Closed(mask, copy) && SeededFrom(s, copy, seeds)
  {
  }

  /** Labels the component of the seed (si, sj) with k, given that components
      1..k-1 are complete and every other cell is still unlabelled. The ghost array
      before holds the labels as they were on entry. */
  method Fill(mask: array2<bool>, labels: array2<int>, ghost before: array2<int>,
              si: int, sj: int, k: int, ghost seeds: seq<(int, int)>)
    requires SameShape(mask, labels) && SameShape(mask, before) && labels != before
    requires forall i, j :: 0 <= i < mask.Length0 && 0 <= j < mask.Length1 ==> labels[i, j] == before[i, j]
    requires 0 <= si < mask.Length0 && 0 <= sj < mask.Length1 && mask[si, sj] && labels[si, sj] == 0
    requires k >= 1 && |seeds| == k && seeds[k - 1] == (si, sj)
    requires Ranged(mask, before, k - 1) && Closed(mask, before)
    requires SeededFrom(MarkedCells(mask), before, seeds)
    modifies labels
    ensures Ranged(mask, labels, k) && Closed(mask, labels)
    ensures SeededFrom(MarkedCells(mask), labels, seeds)
    ensures labels[si, sj] == k
    ensures forall i, j :: 0 <= i < mask.Length0 && 0 <= j < mask.Length1 ==>
      if before[i, j] != 0 then labels[i, j] == before[i, j] else labels[i, j] == 0 || labels[i, j] == k
  {
    ghost var marked := MarkedCells(mask);
    var order;
    ghost var parent;
    order, parent := Flood(mask, labels, before, si, sj, k);
    forall t | 0 <= t < |order|
      ensures Linked(marked, (si, sj), order[t])
    {
      TreeLinked(marked, order, parent, t);
    }
    FillClosed(mask, labels, before, k, order);
    FillSeeded(marked, labels, before, k, seeds, order);
  }

  /** Seed t lies before (i, j), carries label t + 1, and the seeds are in raster order. */
  ghost predicate SeedsPlaced(mask: array2<bool>, labels: array2<int>, seeds: seq<(int, int)>, i: int, j: int)
    reads labels
    requires SameShape(mask, labels)
  {
    && (forall t :: 0 <= t < |seeds| ==>
          && InGrid(mask, seeds[t]) && labels[seeds[t].0, seeds[t].1] == t + 1
          && RasterBefore(seeds[t].0, seeds[t].1, i, j))
    && (forall t, t' :: 0 <= t < t' < |seeds| ==>
          RasterBefore(seeds[t].0, seeds[t].1, seeds[t'].0, seeds[t'].1))
  }

  /** No labelled cell comes before the seed of its label. */
  ghost predicate SeedsFirst(labels: array2<int>, seeds: seq<(int, int)>)
    reads labels
  {
    forall a, b :: 0 <= a < labels.Length0 && 0 <= b < labels.Length1 && 0 < labels[a, b] <= |seeds| ==>
      !RasterBefore(a, b, seeds[labels[a, b] - 1].0, seeds[labels[a, b] - 1].1)
  }

  /** Every marked cell before (i, j) carries a label. */
  ghost predicate ScannedTo(mask: array2<bool>, labels: array2<int>, i: int, j: int)
    reads mask, labels
    requires SameShape(mask, labels)
  {
    forall a, b :: 0 <= a < mask.Length0 && 0 <= b < mask.Length1 && RasterBefore(a, b, i, j) && mask[a, b] ==>
      labels[a, b] != 0
  }

  /** The state of the raster scan before cell (i, j): components 1..count are
      complete and closed, each numbered by the raster order of its seed, and every
      marked cell before (i, j) carries a label. */
  ghost predicate ScanState(mask: array2<bool>, labels: array2<int>, count: int, seeds: seq<(int, int)>, i: int, j: int)
    reads mask, labels
  {
    && SameShape(mask, labels) && |seeds| == count
    && Ranged(mask, labels, count) && Closed(mask, labels)
    && SeededFrom(MarkedCells(mask), labels, seeds)
    && SeedsPlaced(mask, labels, seeds, i, j)
    && SeedsFirst(labels, seeds)
    && ScannedTo(mask, labels, i, j)
  }

  /** A labelled or unmarked cell is passed over. */
  lemma ScanSkip(mask: array2<bool>, labels: array2<int>, count: int, seeds: seq<(int, int)>, i: int, j: int)
    requires ScanState(mask, labels, count, seeds, i, j)
    requires 0 <= i < mask.Length0 && 0 <= j < mask.Length1 && (!mask[i, j] || labels[i, j] != 0)
    ensures ScanState(mask, labels, count, seeds, i, j + 1)
  {
  }

  /** The relabelling a fill makes: labelled cells keep their labels, and some
      unlabelled ones, among them (i, j), get label k. */
  ghost predicate FilledFrom(labels: array2<int>, before: array2<int>, k: int, i: int, j: int)
    reads labels, before
    requires labels.Length0 == before.Length0 && labels.Length1 == before.Length1
  {
    && 0 <= i < labels.Length0 && 0 <= j < labels.Length1 && labels[i, j] == k
    && forall a, b :: 0 <= a < labels.Length0 && 0 <= b < labels.Length1 ==>
      if before[a, b] != 0 then labels[a, b] == before[a, b] else labels[a, b] == 0 || labels[a, b] == k
  }

  lemma SeedsPlacedStep(mask: array2<bool>, labels: array2<int>, before: array2<int>, seeds: seq<(int, int)>, i: int, j: int)
    requires SameShape(mask, labels) && SameShape(mask, before)
    requires SeedsPlaced(mask, before, seeds, i, j) && FilledFrom(labels, before, |seeds| + 1, i, j)
    ensures SeedsPlaced(mask, labels, seeds + [(i, j)], i, j + 1)
  {
    var seeds' := seeds + [(i, j)];
    forall t | 0 <= t < |seeds'|
      ensures InGrid(mask, seeds'[t]) && labels[seeds'[t].0, seeds'[t].1] == t + 1
      ensures RasterBefore(seeds'[t].0, seeds'[t].1, i, j + 1)
    {
      if t < |seeds| {
        assert seeds'[t] == seeds[t];
      }
    }
    forall t, t' | 0 <= t < t' < |seeds'|
      ensures RasterBefore(seeds'[t].0, seeds'[t].1, seeds'[t'].0, seeds'[t'].1)
    {
      assert seeds'[t] == seeds[t];
      if t' < |seeds| {
        assert seeds'[t'] == seeds[t'];
      }
    }
  }

  lemma SeedsFirstStep(mask: array2<bool>, labels: array2<int>, before: array2<int>, seeds: seq<(int, int)>, i: int, j: int)
    requires SameShape(mask, labels) && SameShape(mask, before)
    requires SeedsFirst(before, seeds) && ScannedTo(mask, before, i, j) && Ranged(mask, labels, |seeds| + 1)
    requires FilledFrom(labels, before, |seeds| + 1, i, j)
    requires forall a, b :: 0 <= a < mask.Length0 && 0 <= b < mask.Length1 ==> 0 <= before[a, b] <= |seeds|
    ensures SeedsFirst(labels, seeds + [(i, j)])
  {
    var seeds' := seeds + [(i, j)];
    forall a, b | 0 <= a < labels.Length0 && 0 <= b < labels.Length1 && 0 < labels[a, b] <= |seeds'|
      ensures !RasterBefore(a, b, seeds'[labels[a, b] - 1].0, seeds'[labels[a, b] - 1].1)
    {
      if before[a, b] != 0 {
        assert seeds'[labels[a, b] - 1] == seeds[before[a, b] - 1];
      } else {
        assert labels[a, b] == |seeds'| && mask[a, b];
      }
    }
  }

  lemma ScannedStep(mask: array2<bool>, labels: array2<int>, before: array2<int>, k: int, i: int, j: int)
    requires SameShape(mask, labels) && SameShape(mask, before) && k >= 1
    requires ScannedTo(mask, before, i, j) && FilledFrom(labels, before, k, i, j)
    ensures ScannedTo(mask, labels, i, j + 1)
  {
    forall a, b | 0 <= a < mask.Length0 && 0 <= b < mask.Length1 && RasterBefore(a, b, i, j + 1) && mask[a, b]
      ensures labels[a, b] != 0
    {
      if a < i || b < j {
        assert RasterBefore(a, b, i, j);
      }
    }
  }

  /** Filling a new component from the unlabelled marked cell (i, j) with label
      count + 1 moves the scan past (i, j). */
  lemma ScanSeed(mask: array2<bool>, labels: array2<int>, before: array2<int>, count: int,
                 seeds: seq<(int, int)>, i: int, j: int)
    requires SameShape(mask, labels) && ScanState(mask, before, count, seeds, i, j)
    requires 0 <= i < mask.Length0 && 0 <= j < mask.Length1 && mask[i, j] && before[i, j] == 0
    requires Ranged(mask, labels, count + 1) && Closed(mask, labels)
    requires SeededFrom(MarkedCells(mask), labels, seeds + [(i, j)])
    requires FilledFrom(labels, before, count + 1, i, j)
    ensures ScanState(mask, labels, count + 1, seeds + [(i, j)], i, j + 1)
  {
    SeedsPlacedStep(mask, labels, before, seeds, i, j);
    SeedsFirstStep(mask, labels, before, seeds, i, j);
    ScannedStep(mask, labels, before, count + 1, i, j);
  }

  /** A copy of the labels is in the same scan state; a further seed leaves the
      links of the labelled cells as they are. */
  lemma ScanCopy(mask: array2<bool>, labels: array2<int>, copy: array2<int>, count: int,
                 seeds: seq<(int, int)>, i: int, j: int)
    requires ScanState(mask, labels, count, seeds, i, j) && SameShape(mask, copy)
    requires forall a, b :: 0 <= a < mask.Length0 && 0 <= b < mask.Length1 ==> copy[a, b] == labels[a, b]
    ensures ScanState(mask, copy, count, seeds, i, j)
    ensures SeededFrom(MarkedCells(mask), copy, seeds + [(i, j)])
  {
    CopyKeeps(mask, labels, copy, count, MarkedCells(mask), seeds);
    OrderCopy(mask, labels, copy, seeds, i, j);
    SeededExtend(MarkedCells(mask), copy, seeds, (i, j));
  }

  lemma OrderCopy(mask: array2<bool>, labels: array2<int>, copy: array2<int>,
                  seeds: seq<(int, int)>, i: int, j: int)
    requires SameShape(mask, labels) && SameShape(mask, copy)
    requires forall a, b :: 0 <= a < mask.Length0 && 0 <= b < mask.Length1 ==> copy[a, b] == labels[a, b]
    requires SeedsPlaced(mask, labels, seeds, i, j) && SeedsFirst(labels, seeds) && ScannedTo(mask, labels, i, j)
    ensures SeedsPlaced(mask, copy, seeds, i, j) && SeedsFirst(copy, seeds) && ScannedTo(mask, copy, i, j)
  {
  }

  /** A new seed adds no obligation while no cell carries its label. */
  lemma SeededExtend(s: set<(int, int)>, labels: array2<int>, seeds: seq<(int, int)>, c: (int, int))
    requires SeededFrom(s, labels, seeds)
    requires forall a, b :: 0 <= a < labels.Length0 && 0 <= b < labels.Length1 ==> labels[a, b] <= |seeds|
    ensures SeededFrom(s, labels, seeds + [c])
  {
    forall a, b | 0 <= a < labels.Length0 && 0 <= b < labels.Length1 && 0 < labels[a, b] <= |seeds| + 1
      ensures Linked(s, (seeds + [c])[labels[a, b] - 1], (a, b))
    {
      assert (seeds + [c])[labels[a, b] - 1] == seeds[labels[a, b] - 1];
    }
  }

  /** Looks at cell (i, j) of the scan: an unlabelled marked cell is the seed of a
      new component, which is filled with the next label. */
  method ScanCell(mask: array2<bool>, labels: array2<int>, count: int, ghost seeds: seq<(int, int)>, i: int, j: int)
    returns (count': int, ghost seeds': seq<(int, int)>)
    requires ScanState(mask, labels, count, seeds, i, j)
    requires 0 <= i < mask.Length0 && 0 <= j < mask.Length1
    modifies labels
    ensures ScanState(mask, labels, count', seeds', i, j + 1)
    ensures count <= count'
  {
    if mask[i, j] && labels[i, j] == 0 {
      ghost var before := new int[mask.Length0, mask.Length1]((a, b) reads labels
        requires 0 <= a < mask.Length0 && 0 <= b < mask.Length1 => labels[a, b]);
      ScanCopy(mask, labels, before, count, seeds, i, j);
      count', seeds' := count + 1, seeds + [(i, j)];
      Fill(mask, labels, before, i, j, count', seeds');
      ScanSeed(mask, labels, before, count, seeds, i, j);
    } else {
      ScanSkip(mask, labels, count, seeds, i, j);
      count', seeds' := count, seeds;
    }
  }

  /** The end of row i is the start of row i + 1. */
  lemma NextRow(mask: array2<bool>, labels: array2<int>, count: int, seeds: seq<(int, int)>, i: int)
    requires ScanState(mask, labels, count, seeds, i, mask.Length1)
    ensures ScanState(mask, labels, count, seeds, i + 1, 0)
  {
  }

  /** A finished scan is a labelling. */
  lemma ScanDone(mask: array2<bool>, labels: array2<int>, count: int, seeds: seq<(int, int)>)
    requires ScanState(mask, labels, count, seeds, mask.Length0, 0) && count >= 0
    ensures IsLabelling(mask, labels, count, seeds)
  {
  }

  /** ndimage.label with the default cross structure: the 4-connected components
      of the mask, numbered 1..count in the raster order of their first cells;
      unmarked cells get 0. */
  method Label(mask: array2<bool>) returns (labels: array2<int>, count: nat, ghost seeds: seq<(int, int)>)
    ensures IsLabelling(mask, labels, count, seeds)
    ensures fresh(labels)
  {
    var W, H := mask.Length0, mask.Length1;
    labels := new int[W, H]((i, j) => 0);
    count, seeds := 0, [];
    for i := 0 to W
      invariant ScanState(mask, labels, count, seeds, i, 0) && count >= 0
    {
      for j := 0 to H
        invariant ScanState(mask, labels, count, seeds, i, j) && count >= 0
      {
        count, seeds := ScanCell(mask, labels, count, seeds, i, j);
      }
      NextRow(mask, labels, count, seeds, i);
    }
    ScanDone(mask, labels, count, seeds);
  }

  /** Walks can be reversed: being linked is symmetric. */
  lemma LinkedSymmetric(s: set<(int, int)>, a: (int, int), b: (int, int))
    requires Linked(s, a, b)
    ensures Linked(s, b, a)
  {
    var p :| IsPath(s, p) && p[0] == a && p[|p| - 1] == b;
    var q := seq(|p|, t requires 0 <= t < |p| => p[|p| - 1 - t]);
    forall t | 0 <= t < |q| - 1
      ensures StepAt(q, t)
    {
      assert StepAt(p, |p| - 2 - t);
    }
    assert IsPath(s, q);
  }

  /** Walks can be joined end to end: being linked is transitive. */
  lemma LinkedTransitive(s: set<(int, int)>, a: (int, int), b: (int, int), c: (int, int))
    requires Linked(s, a, b) && Linked(s, b, c)
    ensures Linked(s, a, c)
  {
    var p :| IsPath(s, p) && p[0] == a && p[|p| - 1] == b;
    var q :| IsPath(s, q) && q[0] == b && q[|q| - 1] == c;
    var r := p + q[1..];
    forall t | 0 <= t < |r|
      ensures r[t] == if t < |p| then p[t] else q[t - |p| + 1]
    {
    }
    forall t | 0 <= t < |r| - 1
      ensures StepAt(r, t)
    {
      if t < |p| - 1 {
        assert StepAt(p, t);
      } else {
        assert StepAt(q, t - |p| + 1);
      }
    }
    assert r[|r| - 1] == c;
    assert IsPath(s, r);
  }

  /** In a closed labelling, a walk through marked cells keeps the label it starts with. */
  lemma {:induction false} PathKeepsLabel(mask: array2<bool>, labels: array2<int>, p: seq<(int, int)>)
    requires SameShape(mask, labels) && Closed(mask, labels)
    requires IsPath(MarkedCells(mask), p) && InGrid(mask, p[0]) && labels[p[0].0, p[0].1] != 0
    ensures InGrid(mask, p[|p| - 1]) && labels[p[|p| - 1].0, p[|p| - 1].1] == labels[p[0].0, p[0].1]
    decreases |p|
  {
    assert p[|p| - 1] in MarkedCells(mask);
    if |p| > 1 {
      var q := p[..|p| - 1];
      forall t | 0 <= t < |q| - 1
        ensures StepAt(q, t)
      {
        assert StepAt(p, t);
      }
      assert IsPath(MarkedCells(mask), q);
      PathKeepsLabel(mask, labels, q);
      assert StepAt(p, |p| - 2);
      var u, v := p[|p| - 2], p[|p| - 1];
      assert u == q[|q| - 1];
      assert Adjacent(u.0, u.1, v.0, v.1);
    }
  }

  /** Two cells with the same label are joined through the seed of that label. */
  lemma SameLabelLinked(mask: array2<bool>, labels: array2<int>, seeds: seq<(int, int)>, a: (int, int), b: (int, int))
    requires SeededFrom(MarkedCells(mask), labels, seeds)
    requires 0 <= a.0 < labels.Length0 && 0 <= a.1 < labels.Length1
    requires 0 <= b.0 < labels.Length0 && 0 <= b.1 < labels.Length1
    requires 0 < labels[a.0, a.1] <= |seeds| && labels[a.0, a.1] == labels[b.0, b.1]
    ensures Linked(MarkedCells(mask), a, b)
  {
    var s, seed := MarkedCells(mask), seeds[labels[a.0, a.1] - 1];
    assert Linked(s, seed, a) && Linked(s, seed, b);
    LinkedSymmetric(s, seed, a);
    LinkedTransitive(s, a, seed, b);
  }

  /** A labelled cell passes its label to every cell it is linked to. */
  lemma LinkedSameLabel(mask: array2<bool>, labels: array2<int>, a: (int, int), b: (int, int))
    requires SameShape(mask, labels) && Closed(mask, labels)
    requires InGrid(mask, a) && InGrid(mask, b) && labels[a.0, a.1] != 0
    requires Linked(MarkedCells(mask), a, b)
    ensures labels[a.0, a.1] == labels[b.0, b.1]
  {
    var p :| IsPath(MarkedCells(mask), p) && p[0] == a && p[|p| - 1] == b;
    PathKeepsLabel(mask, labels, p);
  }

  /** The labels are exactly the 4-connected components: two marked cells carry the
      same label if and only if a walk through marked cells joins them. */
  lemma SameLabelIffLinked(mask: array2<bool>, labels: array2<int>, count: nat, seeds: seq<(int, int)>,
                           a: (int, int), b: (int, int))
    requires IsLabelling(mask, labels, count, seeds)
    requires InGrid(mask, a) && InGrid(mask, b) && mask[a.0, a.1] && mask[b.0, b.1]
    ensures labels[a.0, a.1] == labels[b.0, b.1] <==> Linked(MarkedCells(mask), a, b)
  {
    assert 0 < labels[a.0, a.1] <= |seeds|;
    if labels[a.0, a.1] == labels[b.0, b.1] {
      SameLabelLinked(mask, labels, seeds, a, b);
    }
    if Linked(MarkedCells(mask), a, b) {
      LinkedSameLabel(mask, labels, a, b);
    }
  }

  /** The bounding box of a component as find_objects reports it: a pair of
      half-open slices, rows [rowStart, rowStop) and columns [colStart, colStop). */
  datatype Extent = Extent(rowStart: int, rowStop: int, colStart: int, colStop: int)

  ghost predicate HasLabel(labels: array2<int>, l: int, a: int, b: int)
    reads labels
  {
    0 <= a < labels.Length0 && 0 <= b < labels.Length1 && labels[a, b] == l
  }

  /** e is the tight bounding box of the cells labelled l that come before (i, j):
      it holds all of them, and each of its four sides touches one of them. */
  ghost predicate BoxedUpTo(labels: array2<int>, l: int, e: Extent, i: int, j: int)
    reads labels
  {
    && (forall a, b :: HasLabel(labels, l, a, b) && RasterBefore(a, b, i, j) ==>
          e.rowStart <= a < e.rowStop && e.colStart <= b < e.colStop)
    && (exists a, b :: HasLabel(labels, l, a, b) && RasterBefore(a, b, i, j) && a == e.rowStart)
    && (exists a, b :: HasLabel(labels, l, a, b) && RasterBefore(a, b, i, j) && a == e.rowStop - 1)
    && (exists a, b :: HasLabel(labels, l, a, b) && RasterBefore(a, b, i, j) && b == e.colStart)
    && (exists a, b :: HasLabel(labels, l, a, b) && RasterBefore(a, b, i, j) && b == e.colStop - 1)
  }

  /** No cell before (i, j) carries label l. */
  ghost predicate AbsentUpTo(labels: array2<int>, l: int, i: int, j: int)
    reads labels
  {
    forall a, b :: HasLabel(labels, l, a, b) ==> !RasterBefore(a, b, i, j)
  }

  /** box describes label l over the cells before (i, j). */
  ghost predicate EntryUpTo(labels: array2<int>, l: int, box: Option<Extent>, i: int, j: int)
    reads labels
  {
    match box
    case None => AbsentUpTo(labels, l, i, j)
    case Some(e) => BoxedUpTo(labels, l, e, i, j)
  }

  /** No cell carries label l. */
  ghost predicate Absent(labels: array2<int>, l: int)
    reads labels
  {
    forall a, b :: !HasLabel(labels, l, a, b)
  }

  /** boxes[t] describes label t + 1 over the cells before (i, j). */
  ghost predicate ObjectsUpTo(labels: array2<int>, boxes: seq<Option<Extent>>, i: int, j: int)
    reads labels
  {
    forall t :: 0 <= t < |boxes| ==> EntryUpTo(labels, t + 1, boxes[t], i, j)
  }

  /** What find_objects promises for labels 1..|boxes|: entry t is None exactly when
      no cell carries label t + 1, and otherwise the tight bounding box of the cells
      that do. */
  ghost predicate IsObjects(labels: array2<int>, boxes: seq<Option<Extent>>)
    reads labels
  {
    forall t :: 0 <= t < |boxes| ==>
      && (boxes[t].None? <==> Absent(labels, t + 1))
      && (boxes[t].Some? ==> BoxedUpTo(labels, t + 1, boxes[t].value, labels.Length0, 0))
  }

  /** The box of a label after it is found at (i, j). */
  function Grow(box: Option<Extent>, i: int, j: int): (e: Extent)
    ensures e.rowStart <= i < e.rowStop && e.colStart <= j < e.colStop
    ensures box.Some? ==> e.rowStart <= box.value.rowStart && box.value.rowStop <= e.rowStop
    ensures box.Some? ==> e.colStart <= box.value.colStart && box.value.colStop <= e.colStop
  {
    match box
    case None => Extent(i, i + 1, j, j + 1)
    case Some(b) =>
      Extent(if i < b.rowStart then i else b.rowStart, if b.rowStop < i + 1 then i + 1 else b.rowStop,
             if j < b.colStart then j else b.colStart, if b.colStop < j + 1 then j + 1 else b.colStop)
  }

  /** The first cell found with label l opens a one-cell box. */
  lemma OpenBox(labels: array2<int>, l: int, i: int, j: int)
    requires AbsentUpTo(labels, l, i, j) && HasLabel(labels, l, i, j)
    ensures BoxedUpTo(labels, l, Grow(None, i, j), i, j + 1)
  {
    forall a, b | HasLabel(labels, l, a, b) && RasterBefore(a, b, i, j + 1)
      ensures a == i && b == j
    {
      assert !RasterBefore(a, b, i, j);
    }
  }

  /** Every further cell found with label l widens its box just enough. */
  lemma WidenBox(labels: array2<int>, l: int, e: Extent, i: int, j: int)
    requires BoxedUpTo(labels, l, e, i, j) && HasLabel(labels, l, i, j)
    ensures BoxedUpTo(labels, l, Grow(Some(e), i, j), i, j + 1)
  {
    var g := Grow(Some(e), i, j);
    forall a, b | HasLabel(labels, l, a, b) && RasterBefore(a, b, i, j + 1)
      ensures g.rowStart <= a < g.rowStop && g.colStart <= b < g.colStop
    {
      if a != i || b != j {
        assert RasterBefore(a, b, i, j);
      }
    }
    assert RasterBefore(i, j, i, j + 1);
    var a0, b0 :| HasLabel(labels, l, a0, b0) && RasterBefore(a0, b0, i, j) && a0 == e.rowStart;
    var a1, b1 :| HasLabel(labels, l, a1, b1) && RasterBefore(a1, b1, i, j) && a1 == e.rowStop - 1;
    var a2, b2 :| HasLabel(labels, l, a2, b2) && RasterBefore(a2, b2, i, j) && b2 == e.colStart;
    var a3, b3 :| HasLabel(labels, l, a3, b3) && RasterBefore(a3, b3, i, j) && b3 == e.colStop - 1;
    assert RasterBefore(a0, b0, i, j + 1) && RasterBefore(a1, b1, i, j + 1);
    assert RasterBefore(a2, b2, i, j + 1) && RasterBefore(a3, b3, i, j + 1);
  }

  /** A cell with another label leaves the entry for l as it was. */
  lemma KeepEntry(labels: array2<int>, l: int, box: Option<Extent>, i: int, j: int)
    requires 0 <= i < labels.Length0 && 0 <= j < labels.Length1 && labels[i, j] != l
    requires EntryUpTo(labels, l, box, i, j)
    ensures EntryUpTo(labels, l, box, i, j + 1)
  {
    forall a, b | HasLabel(labels, l, a, b) && RasterBefore(a, b, i, j + 1)
      ensures RasterBefore(a, b, i, j)
    {
    }
    if box.Some? {
      var e := box.value;
      var a0, b0 :| HasLabel(labels, l, a0, b0) && RasterBefore(a0, b0, i, j) && a0 == e.rowStart;
      var a1, b1 :| HasLabel(labels, l, a1, b1) && RasterBefore(a1, b1, i, j) && a1 == e.rowStop - 1;
      var a2, b2 :| HasLabel(labels, l, a2, b2) && RasterBefore(a2, b2, i, j) && b2 == e.colStart;
      var a3, b3 :| HasLabel(labels, l, a3, b3) && RasterBefore(a3, b3, i, j) && b3 == e.colStop - 1;
      assert RasterBefore(a0, b0, i, j + 1) && RasterBefore(a1, b1, i, j + 1);
      assert RasterBefore(a2, b2, i, j + 1) && RasterBefore(a3, b3, i, j + 1);
    }
  }

  /** Scanning cell (i, j) widens the entry of label l if the cell carries it. */
  lemma EntryStep(labels: array2<int>, l: int, box: Option<Extent>, i: int, j: int)
    requires 0 <= i < labels.Length0 && 0 <= j < labels.Length1 && EntryUpTo(labels, l, box, i, j)
    ensures EntryUpTo(labels, l, if labels[i, j] == l then Some(Grow(box, i, j)) else box, i, j + 1)
  {
    if labels[i, j] != l {
      KeepEntry(labels, l, box, i, j);
    } else if box.None? {
      OpenBox(labels, l, i, j);
    } else {
      WidenBox(labels, l, box.value, i, j);
    }
  }

  /** Scanning cell (i, j) updates the entry of its label and no other. */
  lemma ObjectsStep(labels: array2<int>, boxes: seq<Option<Extent>>, i: int, j: int)
    requires 0 <= i < labels.Length0 && 0 <= j < labels.Length1 && ObjectsUpTo(labels, boxes, i, j)
    ensures ObjectsUpTo(labels, Record(boxes, labels[i, j], i, j), i, j + 1)
  {
    var l := labels[i, j];
    var boxes' := Record(boxes, l, i, j);
    forall t | 0 <= t < |boxes'|
      ensures EntryUpTo(labels, t + 1, boxes'[t], i, j + 1)
    {
      EntryStep(labels, t + 1, boxes[t], i, j);
      assert boxes'[t] == if l == t + 1 then Some(Grow(boxes[t], i, j)) else boxes[t];
    }
  }

  /** The end of row i is the start of row i + 1. */
  lemma ObjectsNextRow(labels: array2<int>, boxes: seq<Option<Extent>>, i: int)
    requires ObjectsUpTo(labels, boxes, i, labels.Length1)
    ensures ObjectsUpTo(labels, boxes, i + 1, 0)
  {
    forall t | 0 <= t < |boxes|
      ensures EntryUpTo(labels, t + 1, boxes[t], i + 1, 0)
    {
      assert EntryUpTo(labels, t + 1, boxes[t], i, labels.Length1);
      forall a, b | HasLabel(labels, t + 1, a, b)
        ensures RasterBefore(a, b, i + 1, 0) == RasterBefore(a, b, i, labels.Length1)
      {
      }
    }
  }

  /** The entries after scanning a cell with label l at (i, j). */
  function Record(boxes: seq<Option<Extent>>, l: int, i: int, j: int): (boxes': seq<Option<Extent>>)
    ensures |boxes'| == |boxes|
  {
    if 1 <= l <= |boxes| then boxes[l - 1 := Some(Grow(boxes[l - 1], i, j))] else boxes
  }

  /** Scans row i of the labels, widening the box of every label met. */
  method ObjectsRow(labels: array2<int>, boxes: seq<Option<Extent>>, i: int) returns (boxes': seq<Option<Extent>>)
    requires 0 <= i < labels.Length0 && ObjectsUpTo(labels, boxes, i, 0)
    ensures |boxes'| == |boxes| && ObjectsUpTo(labels, boxes', i + 1, 0)
  {
    boxes' := boxes;
    for j := 0 to labels.Length1
      invariant |boxes'| == |boxes| && ObjectsUpTo(labels, boxes', i, j)
    {
      ObjectsStep(labels, boxes', i, j);
      boxes' := Record(boxes', labels[i, j], i, j);
    }
    ObjectsNextRow(labels, boxes', i);
  }

  /** scipy.ndimage.find_objects for labels 1..maxLabel. Cells are visited in raster
      order, and each one widens the box of its label. */
  method FindObjects(labels: array2<int>, maxLabel: nat) returns (boxes: seq<Option<Extent>>)
    ensures |boxes| == maxLabel
    ensures IsObjects(labels, boxes)
  {
    boxes := seq(maxLabel, _ => None);
    for i := 0 to labels.Length0
      invariant |boxes| == maxLabel && ObjectsUpTo(labels, boxes, i, 0)
    {
      boxes := ObjectsRow(labels, boxes, i);
    }
    ObjectsDone(labels, boxes);
  }

  /** After the last row every cell has been scanned. */
  lemma ObjectsDone(labels: array2<int>, boxes: seq<Option<Extent>>)
    requires ObjectsUpTo(labels, boxes, labels.Length0, 0)
    ensures IsObjects(labels, boxes)
  {
    forall t | 0 <= t < |boxes|
      ensures boxes[t].None? <==> Absent(labels, t + 1)
      ensures boxes[t].Some? ==> BoxedUpTo(labels, t + 1, boxes[t].value, labels.Length0, 0)
    {
      var l := t + 1;
      assert EntryUpTo(labels, l, boxes[t], labels.Length0, 0);
      if boxes[t].Some? {
        var e := boxes[t].value;
        var a0, b0 :| HasLabel(labels, l, a0, b0) && RasterBefore(a0, b0, labels.Length0, 0) && a0 == e.rowStart;
      } else {
        forall a, b | HasLabel(labels, l, a, b)
          ensures false
        {
          assert RasterBefore(a, b, labels.Length0, 0);
        }
      }
    }
  }

  /** A reported box lies inside the grid and is not empty. */
  lemma BoxInGrid(labels: array2<int>, boxes: seq<Option<Extent>>, t: int)
    requires IsObjects(labels, boxes) && 0 <= t < |boxes| && boxes[t].Some?
    ensures var e := boxes[t].value;
      0 <= e.rowStart < e.rowStop <= labels.Length0 && 0 <= e.colStart < e.colStop <= labels.Length1
  {
    var e, l := boxes[t].value, t + 1;
    assert BoxedUpTo(labels, l, e, labels.Length0, 0);
    var a0, b0 :| HasLabel(labels, l, a0, b0) && RasterBefore(a0, b0, labels.Length0, 0) && a0 == e.rowStart;
    var a1, b1 :| HasLabel(labels, l, a1, b1) && RasterBefore(a1, b1, labels.Length0, 0) && a1 == e.rowStop - 1;
    var a2, b2 :| HasLabel(labels, l, a2, b2) && RasterBefore(a2, b2, labels.Length0, 0) && b2 == e.colStart;
    var a3, b3 :| HasLabel(labels, l, a3, b3) && RasterBefore(a3, b3, labels.Length0, 0) && b3 == e.colStop - 1;
  }

  /** On the output of Label, every label 1..count is present, so find_objects
      reports a box for each component and no None. */
  lemma EveryComponentBoxed(mask: array2<bool>, labels: array2<int>, count: nat, seeds: seq<(int, int)>,
                            boxes: seq<Option<Extent>>)
    requires IsLabelling(mask, labels, count, seeds) && IsObjects(labels, boxes) && |boxes| == count
    ensures forall t :: 0 <= t < |boxes| ==> boxes[t].Some?
  {
    forall t | 0 <= t < |boxes|
      ensures boxes[t].Some?
    {
      assert HasLabel(labels, t + 1, seeds[t].0, seeds[t].1);
    }
  }
}
