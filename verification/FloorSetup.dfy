/** The points of a floor curve: their order by column, and each point's neighbours among the points before it. */
module FloorSetup {

  const MAX_POINTS: nat := 250
  const MAX_COLUMN: nat := 65536

  datatype Floor = Floor(xs: seq<nat>, multiplier: nat, order: seq<nat>, neighbours: seq<Neighbours>)

  datatype Neighbours = Neighbours(low: nat, high: nat)

  datatype Setup = Ready(floor: Floor) | InvalidSetup

  ghost predicate DistinctColumns(xs: seq<nat>)
  {
    forall j, k :: 0 <= j < k < |xs| ==> xs[j] != xs[k]
  }

  // ----- the order by column (the library's qsort) -----

  ghost predicate Indices(order: seq<nat>, n: nat)
  {
    |order| == n && forall j: nat {:trigger j in order} :: j in order <==> j < n
  }

  ghost predicate NoRepeats(order: seq<nat>)
  {
    forall p, q :: 0 <= p < q < |order| ==> order[p] != order[q]
  }

  ghost predicate ByColumn(xs: seq<nat>, order: seq<nat>)
  {
    && (forall p :: 0 <= p < |order| ==> order[p] < |xs|)
    && forall p, q :: 0 <= p < q < |order| ==> xs[order[p]] <= xs[order[q]]
  }

  lemma PutFirst(xs: seq<nat>, j: nat, order: seq<nat>)
    requires j < |xs| && ByColumn(xs, order) && NoRepeats(order) && j !in order
    requires forall k {:trigger k in order} :: k in order ==> k < |xs| && xs[j] <= xs[k]
    ensures ByColumn(xs, [j] + order) && NoRepeats([j] + order)
    ensures forall k {:trigger k in [j] + order} :: k in [j] + order <==> k == j || k in order
  {
    assert forall p :: 0 <= p < |order| ==> order[p] in order;
  }

  lemma FirstAndRest(xs: seq<nat>, order: seq<nat>)
    requires ByColumn(xs, order) && NoRepeats(order) && order != []
    ensures ByColumn(xs, order[1..]) && NoRepeats(order[1..]) && order[0] < |xs| && order[0] !in order[1..]
    ensures forall k {:trigger k in order} :: k in order <==> k == order[0] || k in order[1..]
    ensures forall k {:trigger k in order} :: k in order ==> k < |xs| && xs[order[0]] <= xs[k]
  {
    assert order == [order[0]] + order[1..];
  }

  function InsertPoint(xs: seq<nat>, j: nat, order: seq<nat>): (r: seq<nat>)
    requires j < |xs| && ByColumn(xs, order) && NoRepeats(order) && j !in order
    ensures ByColumn(xs, r) && NoRepeats(r) && |r| == |order| + 1
    ensures forall k {:trigger k in r} :: k in r <==> k == j || k in order
  {
    if order == [] || xs[j] <= xs[order[0]] then
      PutFirst(xs, j, order);
      [j] + order
    else
      FirstAndRest(xs, order);
      var t := InsertPoint(xs, j, order[1..]);
      PutFirst(xs, order[0], t);
      [order[0]] + t
  }

  function SortPoints(xs: seq<nat>, n: nat): (r: seq<nat>)
    requires n <= |xs|
    ensures ByColumn(xs, r) && NoRepeats(r) && Indices(r, n)
  {
    if n == 0 then [] else InsertPoint(xs, n - 1, SortPoints(xs, n - 1))
  }

  /** Sorted columns are all different when no two next to each other agree, and only then. */
  lemma {:induction false} AdjacentSuffices(xs: seq<nat>, order: seq<nat>, p: nat, q: nat)
    requires ByColumn(xs, order) && p < q < |order|
    requires forall k :: 0 <= k < |order| - 1 ==> xs[order[k]] != xs[order[k + 1]]
    ensures xs[order[p]] < xs[order[q]]
  {
    if p + 1 < q {
      AdjacentSuffices(xs, order, p, q - 1);
    }
  }

  /** The points in strictly increasing columns. */
  ghost predicate Ordered(xs: seq<nat>, order: seq<nat>)
  {
    && Indices(order, |xs|)
    && (forall p :: 0 <= p < |order| ==> order[p] < |xs|)
    && forall p, q :: 0 <= p < q < |order| ==> xs[order[p]] < xs[order[q]]
  }

  // ----- neighbours -----

  /** `low` and `high` are the closest points on either side of `n` among the points before it. */
  ghost predicate Closest(xs: seq<nat>, n: nat, b: Neighbours)
    requires n < |xs|
  {
    && b.low < n && b.high < n && xs[b.low] < xs[n] < xs[b.high]
    && forall i {:trigger xs[i]} :: 0 <= i < n ==> xs[i] <= xs[b.low] || xs[i] == xs[n] || xs[i] >= xs[b.high]
  }

  method FindNeighbours(xs: seq<nat>, n: nat) returns (b: Neighbours)
    requires n < |xs| && forall i :: 0 <= i < |xs| ==> xs[i] < MAX_COLUMN
    ensures (exists i, k {:trigger xs[i], xs[k]} :: 0 <= i < n && 0 <= k < n && xs[i] < xs[n] < xs[k]) <==> Closest(xs, n, b)
  {
    var plow, phigh := 0, 0;
    var low: int, high := -1, MAX_COLUMN;
    for i := 0 to n
      invariant if low < 0 then low == -1 else plow < i && xs[plow] == low < xs[n]
      invariant if high == MAX_COLUMN then true else phigh < i && xs[phigh] == high > xs[n]
      invariant forall k {:trigger xs[k]} :: 0 <= k < i ==> xs[k] <= low || xs[k] == xs[n] || xs[k] >= high
    {
      if low < xs[i] < xs[n] {
        plow, low := i, xs[i];
      }
      if xs[n] < xs[i] < high {
        phigh, high := i, xs[i];
      }
    }
    b := Neighbours(plow, phigh);
    assert (exists i, k {:trigger xs[i], xs[k]} :: 0 <= i < n && 0 <= k < n && xs[i] < xs[n] < xs[k]) ==> Closest(xs, n, b);
    assert Closest(xs, n, b) ==> 0 <= b.low < n && 0 <= b.high < n && xs[b.low] < xs[n] < xs[b.high];
  }

  // ----- the whole setup -----

  /** What the setup leaves: the first two points bound all the others, and each later point has its neighbours. */
  ghost predicate Valid(f: Floor)
  {
    && 2 <= |f.xs| <= MAX_POINTS && f.xs[0] == 0 && |f.neighbours| == |f.xs|
    && Ordered(f.xs, f.order)
    && DistinctColumns(f.xs)
    && forall j {:trigger f.neighbours[j]} :: 2 <= j < |f.xs| ==> Closest(f.xs, j, f.neighbours[j])
  }

  /** The columns as read: 0, a power of two, and values of fewer bits. */
  ghost predicate AsRead(xs: seq<nat>)
  {
    2 <= |xs| <= MAX_POINTS && xs[0] == 0 < xs[1] < MAX_COLUMN && forall j :: 2 <= j < |xs| ==> xs[j] < xs[1]
  }

  lemma InRange(xs: seq<nat>, order: seq<nat>)
    requires ByColumn(xs, order)
    ensures forall p {:trigger order[p]} :: 0 <= p < |order| ==> order[p] < |xs|
  {}

  lemma RepeatedColumn(xs: seq<nat>, order: seq<nat>, j: nat)
    requires ByColumn(xs, order) && NoRepeats(order) && j < |order| - 1 && xs[order[j]] == xs[order[j + 1]]
    ensures !DistinctColumns(xs)
  {
    var a, b := order[j], order[j + 1];
    assert a < b || b < a;
  }

  lemma AllColumnsDiffer(xs: seq<nat>, order: seq<nat>)
    requires ByColumn(xs, order) && Indices(order, |xs|)
    requires forall k :: 0 <= k < |order| - 1 ==> xs[order[k]] != xs[order[k + 1]]
    ensures Ordered(xs, order) && DistinctColumns(xs)
  {
    forall p, q | 0 <= p < q < |order| ensures xs[order[p]] < xs[order[q]] {
      AdjacentSuffices(xs, order, p, q);
    }
    forall j, k | 0 <= j < k < |xs| ensures xs[j] != xs[k] {
      assert j in order && k in order;
      var p :| 0 <= p < |order| && order[p] == j;
      var q :| 0 <= q < |order| && order[q] == k;
      assert p < q || q < p;
    }
  }

  /** Refuses exactly the curves with two points in one column. */
  method Finish(xs: seq<nat>, multiplier: nat) returns (s: Setup)
    requires AsRead(xs)
    ensures s.Ready? <==> DistinctColumns(xs)
    ensures s.Ready? ==> Valid(s.floor) && s.floor.xs == xs && s.floor.multiplier == multiplier
  {
    hide ByColumn, NoRepeats, Ordered;
    var order := SortPoints(xs, |xs|);
    InRange(xs, order);
    for j := 0 to |xs| - 1
      invariant forall k :: 0 <= k < j ==> xs[order[k]] != xs[order[k + 1]]
    {
      if xs[order[j]] == xs[order[j + 1]] {
        RepeatedColumn(xs, order, j);
        return InvalidSetup;
      }
    }
    AllColumnsDiffer(xs, order);
    var neighbours := [Neighbours(0, 0), Neighbours(0, 0)];
    for j := 2 to |xs|
      invariant |neighbours| == j
      invariant forall k {:trigger neighbours[k]} :: 2 <= k < j ==> Closest(xs, k, neighbours[k])
    {
      var b := FindNeighbours(xs, j);
      assert xs[0] < xs[j] < xs[1];
      neighbours := neighbours + [b];
    }
    s := Ready(Floor(xs, multiplier, order, neighbours));
  }
}
