/**
 * Groups of grid cells used by occupancy_grid.py: the 4-neighbourhood, the
 * flood fill that clusters frontier cells into connected components, and
 * the run scan that cuts the occupied cells into maximal horizontal or
 * vertical segments. All of it works on sets and lists of (row, col)
 * indices and never reads the grid array itself.
 */
module Regions {

  /** A (row, col) cell index. */
  type Cell = (int, int)

  /** 4-connected neighbours, in the order the source tries them. */
  const Steps: seq<Cell> := [(-1, 0), (1, 0), (0, -1), (0, 1)]

  /** Two cells are 4-neighbours. */
  predicate Adjacent(a: Cell, b: Cell)
  {
    || (a.0 == b.0 && (a.1 == b.1 + 1 || b.1 == a.1 + 1))
    || (a.1 == b.1 && (a.0 == b.0 + 1 || b.0 == a.0 + 1))
  }

  /** The `k`-th neighbour of `x` in the order of `Steps`. */
  function Neighbour(x: Cell, k: int): (y: Cell)
    requires 0 <= k < |Steps|
    ensures Adjacent(x, y)
  {
    (x.0 + Steps[k].0, x.1 + Steps[k].1)
  }

  /** The four steps reach every 4-neighbour. */
  lemma AdjacentIsStep(x: Cell, y: Cell)
    requires Adjacent(x, y)
    ensures exists k :: 0 <= k < |Steps| && y == Neighbour(x, k)
  {
    if y.0 < x.0 {
      assert y == Neighbour(x, 0);
    } else if y.0 > x.0 {
      assert y == Neighbour(x, 1);
    } else if y.1 < x.1 {
      assert y == Neighbour(x, 2);
    } else {
      assert y == Neighbour(x, 3);
    }
  }

  /** Row-major order on cells, the order of `sorted` on (row, col) pairs. */
  predicate RowMajorBefore(a: Cell, b: Cell)
  {
    a.0 < b.0 || (a.0 == b.0 && a.1 < b.1)
  }

  /** A list sorted strictly in row-major order. */
  predicate RowMajorSorted(s: seq<Cell>)
  {
    forall i, j :: 0 <= i < j < |s| ==> RowMajorBefore(s[i], s[j])
  }

  /** The groups start in strictly increasing row-major order of their first cells. */
  predicate StartsInOrder(groups: seq<seq<Cell>>)
  {
    forall i, j :: 0 <= i < j < |groups| && |groups[i]| > 0 && |groups[j]| > 0 ==>
      RowMajorBefore(groups[i][0], groups[j][0])
  }

  function Elems(s: seq<Cell>): set<Cell>
  {
    set x | x in s
  }

  predicate Distinct(s: seq<Cell>)
  {
    forall i, j :: 0 <= i < j < |s| ==> s[i] != s[j]
  }

  /** Cell `i` of `s` touches a cell listed before it. */
  predicate TouchesEarlier(s: seq<Cell>, i: int)
    requires 0 <= i < |s|
  {
    exists j :: 0 <= j < i && Adjacent(s[j], s[i])
  }

  /** Every cell after the first touches a cell listed before it, so the list is connected. */
  predicate Connected(s: seq<Cell>)
  {
    forall i :: 0 < i < |s| ==> TouchesEarlier(s, i)
  }

  /** No cell of `inside` has a 4-neighbour in `cells` outside `inside`. */
  predicate Closed(inside: set<Cell>, cells: set<Cell>)
  {
    forall x, y :: x in inside && y in cells && Adjacent(x, y) ==> y in inside
  }

  /** The groups of a list of groups with at least `n` cells, in their order. */
  function KeepAtLeast(groups: seq<seq<Cell>>, n: int): (r: seq<seq<Cell>>)
    ensures forall g :: g in r ==> g in groups && |g| >= n
    ensures forall g :: g in groups && |g| >= n ==> g in r
    ensures |r| <= |groups|
  {
    if |groups| == 0 then []
    else
      var last := groups[|groups| - 1];
      KeepAtLeast(groups[..|groups| - 1], n) + (if |last| >= n then [last] else [])
  }

  // ------------------------------------------------------------------
  // Frontier clustering
  // ------------------------------------------------------------------

  /** A connected component of `cells`, listed without repeats. */
  ghost predicate IsComponent(comp: seq<Cell>, cells: set<Cell>)
  {
    && |comp| > 0 && Distinct(comp) && Connected(comp)
    && Elems(comp) <= cells
    && Closed(Elems(comp), cells)
  }

  /** Groups that share no cell. */
  ghost predicate Disjoint(groups: seq<seq<Cell>>)
  {
    forall i, j, x :: 0 <= i < j < |groups| && x in groups[i] ==> x !in groups[j]
  }

  function Union(groups: seq<seq<Cell>>): set<Cell>
  {
    if |groups| == 0 then {} else Union(groups[..|groups| - 1]) + Elems(groups[|groups| - 1])
  }

  lemma {:induction false} UnionMember(groups: seq<seq<Cell>>, x: Cell)
    ensures x in Union(groups) <==> exists i :: 0 <= i < |groups| && x in groups[i]
  {
    if |groups| > 0 {
      UnionMember(groups[..|groups| - 1], x);
      assert forall i :: 0 <= i < |groups| - 1 ==> groups[..|groups| - 1][i] == groups[i];
    }
  }

  /** `groups` splits `cells` into its connected components. */
  ghost predicate Components(groups: seq<seq<Cell>>, cells: set<Cell>)
  {
    && (forall i :: 0 <= i < |groups| ==> IsComponent(groups[i], cells))
    && Disjoint(groups)
    && Union(groups) == cells
  }

  lemma ElemsSnoc(s: seq<Cell>, x: Cell)
    ensures Elems(s + [x]) == Elems(s) + {x}
  {
    assert forall y :: y in s + [x] <==> y in s || y == x;
  }

  lemma DistinctSnoc(s: seq<Cell>, x: Cell)
    requires Distinct(s) && x !in s
    ensures Distinct(s + [x])
  {
    forall i, j | 0 <= i < j < |s + [x]|
      ensures (s + [x])[i] != (s + [x])[j]
    {
      assert (s + [x])[i] == s[i];
    }
  }

  lemma ConnectedSnoc(s: seq<Cell>, x: Cell, w: int)
    requires Connected(s) && 0 <= w < |s| && Adjacent(s[w], x)
    ensures Connected(s + [x])
  {
    var t := s + [x];
    forall i | 0 < i < |t|
      ensures TouchesEarlier(t, i)
    {
      if i < |s| {
        assert TouchesEarlier(s, i);
        var j :| 0 <= j < i && Adjacent(s[j], s[i]);
        assert t[j] == s[j] && t[i] == s[i];
      } else {
        assert t[w] == s[w] && t[i] == x;
      }
    }
  }

  /** Adding a group with no cell in common with the earlier ones keeps the groups disjoint. */
  lemma AddGroup(groups: seq<seq<Cell>>, g: seq<Cell>, n: int)
    requires Disjoint(groups)
    requires forall x :: x in g ==> x !in Union(groups)
    ensures Disjoint(groups + [g])
    ensures forall i :: 0 <= i < |groups| ==> (groups + [g])[i] == groups[i]
    ensures Union(groups + [g]) == Union(groups) + Elems(g)
    ensures KeepAtLeast(groups + [g], n) == KeepAtLeast(groups, n) + (if |g| >= n then [g] else [])
  {
    var t := groups + [g];
    assert t[..|groups|] == groups;
    forall i, j, x | 0 <= i < j < |t| && x in t[i]
      ensures x !in t[j]
    {
      if j == |groups| {
        UnionMember(groups, x);
        assert t[i] == groups[i];
      } else {
        assert t[i] == groups[i] && t[j] == groups[j];
      }
    }
  }

  /** The neighbours of `x` that are in `cells` but not in `visited`, pushed in `Steps` order. */
  method PushNeighbours(cells: set<Cell>, visited: set<Cell>, x: Cell, stack: seq<Cell>)
    returns (stack': seq<Cell>)
    ensures forall y :: y in stack ==> y in stack'
    ensures forall y :: y in stack' ==> y in stack || (y in cells && y !in visited && Adjacent(x, y))
    ensures forall k :: 0 <= k < |Steps| && Neighbour(x, k) in cells ==>
      Neighbour(x, k) in visited || Neighbour(x, k) in stack'
  {
    stack' := stack;
    for k := 0 to |Steps|
      invariant forall y :: y in stack ==> y in stack'
      invariant forall y :: y in stack' ==> y in stack || (y in cells && y !in visited && Adjacent(x, y))
      invariant forall j :: 0 <= j < k && Neighbour(x, j) in cells ==>
        Neighbour(x, j) in visited || Neighbour(x, j) in stack'
    {
      var n := Neighbour(x, k);
      if n !in visited && n in cells {
        stack' := stack' + [n];
      }
    }
  }

  /** On (nonempty) `cluster`, every cell of `stack` touches some cell of `cluster`. */
  ghost predicate Touching(cluster: seq<Cell>, stack: seq<Cell>)
  {
    forall y :: y in stack ==> exists j :: 0 <= j < |cluster| && Adjacent(cluster[j], y)
  }

  /** Every in-`cells` neighbour of a cell of `cluster` is visited or waiting on the stack. */
  ghost predicate Frontier(cluster: seq<Cell>, cells: set<Cell>, visited: set<Cell>, stack: seq<Cell>)
  {
    forall i, k :: 0 <= i < |cluster| && 0 <= k < |Steps| && Neighbour(cluster[i], k) in cells ==>
      Neighbour(cluster[i], k) in visited || Neighbour(cluster[i], k) in stack
  }

  /**
   * The stack-based flood fill of `get_frontiers` from one seed: it collects
   * the cells of `cells` reachable from `seed` through 4-neighbours, without
   * entering `visited0`, and returns the updated visited set.
   */
  method FloodFill(cells: set<Cell>, visited0: set<Cell>, seed: Cell)
    returns (cluster: seq<Cell>, visited: set<Cell>)
    requires seed in cells && seed !in visited0 && visited0 <= cells
    ensures visited == visited0 + Elems(cluster) && visited <= cells
    ensures |cluster| > 0 && cluster[0] == seed
    ensures Distinct(cluster) && Connected(cluster)
    ensures forall x :: x in cluster ==> x !in visited0
    ensures forall x, y :: x in cluster && y in cells && Adjacent(x, y) ==> y in visited
  {
    cluster := [];
    visited := visited0;
    var stack := [seed];
    while |stack| > 0
      invariant FillState(cells, visited0, seed, cluster, visited, stack)
      decreases cells - visited, |stack|
    {
      ghost var before := visited;
      cluster, visited, stack := FillStep(cells, visited0, seed, cluster, visited, stack);
      assert visited != before ==> cells - visited < cells - before;
    }
    forall x, y | x in cluster && y in cells && Adjacent(x, y)
      ensures y in visited
    {
      AdjacentIsStep(x, y);
      var k :| 0 <= k < |Steps| && y == Neighbour(x, k);
      var i :| 0 <= i < |cluster| && cluster[i] == x;
    }
  }

  /** The loop state of the flood fill. */
  ghost predicate FillState(cells: set<Cell>, visited0: set<Cell>, seed: Cell, cluster: seq<Cell>,
                            visited: set<Cell>, stack: seq<Cell>)
  {
    && visited0 <= visited <= cells
    && visited == visited0 + Elems(cluster)
    && (cluster == [] ==> stack == [seed])
    && (cluster != [] ==> cluster[0] == seed && Touching(cluster, stack))
    && Distinct(cluster) && Connected(cluster)
    && (forall x :: x in cluster ==> x !in visited0)
    && (forall y :: y in stack ==> y in cells)
    && Frontier(cluster, cells, visited, stack)
  }

  /** One pop of the flood fill: skip a visited cell, or visit it and push its new neighbours. */
  method FillStep(cells: set<Cell>, visited0: set<Cell>, seed: Cell, cluster0: seq<Cell>,
                  visited1: set<Cell>, stack0: seq<Cell>)
    returns (cluster: seq<Cell>, visited: set<Cell>, stack: seq<Cell>)
    requires |stack0| > 0 && seed in cells && seed !in visited0
    requires FillState(cells, visited0, seed, cluster0, visited1, stack0)
    ensures FillState(cells, visited0, seed, cluster, visited, stack)
    ensures visited1 <= visited && (visited != visited1 || |stack| < |stack0|)
  {
    var x := stack0[|stack0| - 1];
    var rest := stack0[..|stack0| - 1];
    assert stack0 == rest + [x];
    assert forall y :: y in stack0 <==> y in rest || y == x;
    cluster, visited, stack := cluster0, visited1, rest;
    if x in visited {
      return;
    }
    ElemsSnoc(cluster, x);
    assert x !in cluster;
    DistinctSnoc(cluster, x);
    if cluster != [] {
      assert x in stack0 && Touching(cluster, stack0);
      var j :| 0 <= j < |cluster| && Adjacent(cluster[j], x);
      ConnectedSnoc(cluster, x, j);
    }
    visited := visited + {x};
    cluster := cluster + [x];
    var pushed := PushNeighbours(cells, visited, x, stack);
    TouchingAfterPush(cluster0, x, stack, pushed);
    FrontierAfterPush(cluster0, x, cells, visited, stack, pushed);
    stack := pushed;
  }

  /** The cells pushed for a newly visited `x` touch `x`; the old stack already touched the cluster. */
  lemma TouchingAfterPush(cluster0: seq<Cell>, x: Cell, stack: seq<Cell>, pushed: seq<Cell>)
    requires cluster0 != [] ==> Touching(cluster0, stack)
    requires cluster0 == [] ==> stack == []
    requires forall y :: y in pushed ==> y in stack || Adjacent(x, y)
    ensures Touching(cluster0 + [x], pushed)
  {
    var cluster := cluster0 + [x];
    forall y | y in pushed
      ensures exists j :: 0 <= j < |cluster| && Adjacent(cluster[j], y)
    {
      if y in stack {
        var j :| 0 <= j < |cluster0| && Adjacent(cluster0[j], y);
        assert cluster[j] == cluster0[j];
      } else {
        assert cluster[|cluster| - 1] == x;
      }
    }
  }

  /** Visiting `x` and pushing its unvisited neighbours keeps every neighbour of the cluster accounted for. */
  lemma FrontierAfterPush(cluster0: seq<Cell>, x: Cell, cells: set<Cell>, visited: set<Cell>,
                          stack: seq<Cell>, pushed: seq<Cell>)
    requires Frontier(cluster0, cells, visited - {x}, stack + [x])
    requires forall y :: y in stack ==> y in pushed
    requires forall k :: 0 <= k < |Steps| && Neighbour(x, k) in cells ==>
      Neighbour(x, k) in visited || Neighbour(x, k) in pushed
    requires x in visited
    ensures Frontier(cluster0 + [x], cells, visited, pushed)
  {
    var cluster := cluster0 + [x];
    forall i, k | 0 <= i < |cluster| && 0 <= k < |Steps| && Neighbour(cluster[i], k) in cells
      ensures Neighbour(cluster[i], k) in visited || Neighbour(cluster[i], k) in pushed
    {
      if i < |cluster0| {
        assert cluster[i] == cluster0[i];
        var n := Neighbour(cluster0[i], k);
        assert n in visited - {x} || n in stack + [x];
      }
    }
  }

  /**
   * The clustering pass of `get_frontiers`: a flood fill from every
   * frontier cell not yet visited, in list order. `components` are all the
   * groups found, which split the frontier cells into their connected
   * components; `clusters` keeps those of at least three cells.
   */
  method ClusterFrontiers(fc: seq<Cell>) returns (clusters: seq<seq<Cell>>, ghost components: seq<seq<Cell>>)
    ensures Components(components, Elems(fc))
    ensures clusters == KeepAtLeast(components, 3)
    ensures forall k :: 0 <= k < |clusters| ==> IsComponent(clusters[k], Elems(fc)) && |clusters[k]| >= 3
    ensures forall comp :: IsComponent(comp, Elems(fc)) && |comp| >= 3 ==>
      exists k :: 0 <= k < |clusters| && Elems(clusters[k]) == Elems(comp)
  {
    var cells := Elems(fc);
    var visited: set<Cell> := {};
    clusters := [];
    components := [];
    for i := 0 to |fc|
      invariant ClustersSoFar(cells, visited, components, clusters)
      invariant forall j :: 0 <= j < i ==> fc[j] in visited
    {
      visited, clusters, components := ClusterStep(cells, fc[i], visited, clusters, components);
    }
    assert visited == cells by {
      forall y | y in cells ensures y in visited {
        var j :| 0 <= j < |fc| && fc[j] == y;
      }
    }
    LargeComponentsKept(components, cells, 3);
  }

  /** A connected list of cells that meets a closed set lies inside it. */
  lemma ConnectedInsideClosed(a: seq<Cell>, inside: set<Cell>, cells: set<Cell>, x: Cell)
    requires Connected(a) && Elems(a) <= cells && Closed(inside, cells)
    requires x in a && x in inside
    ensures Elems(a) <= inside
  {
    var i :| 0 <= i < |a| && a[i] == x;
    FirstInside(a, inside, cells, i);
    forall y | y in a ensures y in inside {
      var j :| 0 <= j < |a| && a[j] == y;
      LaterInside(a, inside, cells, j);
    }
  }

  /** Walking back along a connected list from a cell of a closed set stays in it, down to the first cell. */
  lemma {:induction false} FirstInside(a: seq<Cell>, inside: set<Cell>, cells: set<Cell>, i: int)
    requires Connected(a) && Elems(a) <= cells && Closed(inside, cells)
    requires 0 <= i < |a| && a[i] in inside
    ensures a[0] in inside
    decreases i
  {
    if i > 0 {
      assert TouchesEarlier(a, i);
      var j :| 0 <= j < i && Adjacent(a[j], a[i]);
      assert a[j] in cells && Adjacent(a[i], a[j]);
      FirstInside(a, inside, cells, j);
    }
  }

  /** From a first cell in a closed set, every cell of a connected list is in it. */
  lemma {:induction false} LaterInside(a: seq<Cell>, inside: set<Cell>, cells: set<Cell>, i: int)
    requires Connected(a) && Elems(a) <= cells && Closed(inside, cells)
    requires 0 <= i < |a| && a[0] in inside
    ensures a[i] in inside
    decreases i
  {
    if i > 0 {
      assert TouchesEarlier(a, i);
      var j :| 0 <= j < i && Adjacent(a[j], a[i]);
      LaterInside(a, inside, cells, j);
      assert a[i] in cells;
    }
  }

  /** Two components that share a cell hold the same cells. */
  lemma ComponentsMeetingAgree(a: seq<Cell>, b: seq<Cell>, cells: set<Cell>, x: Cell)
    requires IsComponent(a, cells) && IsComponent(b, cells)
    requires x in a && x in b
    ensures Elems(a) == Elems(b)
  {
    ConnectedInsideClosed(a, Elems(b), cells, x);
    ConnectedInsideClosed(b, Elems(a), cells, x);
  }

  /** A list without repeats has as many cells as entries. */
  lemma {:induction false} DistinctSize(s: seq<Cell>)
    requires Distinct(s)
    ensures |Elems(s)| == |s|
  {
    if s != [] {
      var t := s[..|s| - 1];
      assert Distinct(t);
      DistinctSize(t);
      assert Elems(s) == Elems(t) + {s[|s| - 1]};
      assert s[|s| - 1] !in Elems(t);
    }
  }

  /**
   * Keeping the components of at least `n` cells keeps components only,
   * and every component of that size is kept (as a set of cells).
   */
  lemma LargeComponentsKept(groups: seq<seq<Cell>>, cells: set<Cell>, n: int)
    requires Components(groups, cells)
    ensures forall k :: 0 <= k < |KeepAtLeast(groups, n)| ==>
      IsComponent(KeepAtLeast(groups, n)[k], cells) && |KeepAtLeast(groups, n)[k]| >= n
    ensures forall comp :: IsComponent(comp, cells) && |comp| >= n ==>
      exists k :: 0 <= k < |KeepAtLeast(groups, n)| && Elems(KeepAtLeast(groups, n)[k]) == Elems(comp)
  {
    var kept := KeepAtLeast(groups, n);
    forall k | 0 <= k < |kept| ensures IsComponent(kept[k], cells) && |kept[k]| >= n {
      assert kept[k] in kept;
    }
    forall comp | IsComponent(comp, cells) && |comp| >= n
      ensures exists k :: 0 <= k < |kept| && Elems(kept[k]) == Elems(comp)
    {
      LargeComponentKept(groups, cells, n, comp);
    }
  }

  /** One component of at least `n` cells is kept, as a set of cells. */
  lemma LargeComponentKept(groups: seq<seq<Cell>>, cells: set<Cell>, n: int, comp: seq<Cell>)
    requires Components(groups, cells)
    requires IsComponent(comp, cells) && |comp| >= n
    ensures exists k :: 0 <= k < |KeepAtLeast(groups, n)| && Elems(KeepAtLeast(groups, n)[k]) == Elems(comp)
  {
    var kept := KeepAtLeast(groups, n);
    UnionMember(groups, comp[0]);
    var i :| 0 <= i < |groups| && comp[0] in groups[i];
    ComponentsMeetingAgree(comp, groups[i], cells, comp[0]);
    DistinctSize(comp);
    DistinctSize(groups[i]);
    assert groups[i] in kept;
    var k :| 0 <= k < |kept| && kept[k] == groups[i];
  }

  /** The loop state of the clustering pass: the components found so far and the cells they cover. */
  ghost predicate ClustersSoFar(cells: set<Cell>, visited: set<Cell>, components: seq<seq<Cell>>,
                                clusters: seq<seq<Cell>>)
  {
    && visited <= cells
    && visited == Union(components)
    && (forall j :: 0 <= j < |components| ==> IsComponent(components[j], cells))
    && Disjoint(components)
    && Closed(visited, cells)
    && clusters == KeepAtLeast(components, 3)
  }

  /** One iteration of the clustering pass: skip a visited cell, or flood-fill a new cluster from it. */
  method ClusterStep(cells: set<Cell>, x: Cell, visited0: set<Cell>, clusters0: seq<seq<Cell>>,
                     ghost components0: seq<seq<Cell>>)
    returns (visited: set<Cell>, clusters: seq<seq<Cell>>, ghost components: seq<seq<Cell>>)
    requires x in cells
    requires ClustersSoFar(cells, visited0, components0, clusters0)
    ensures ClustersSoFar(cells, visited, components, clusters)
    ensures visited0 <= visited && x in visited
  {
    visited, clusters, components := visited0, clusters0, components0;
    if x in visited {
      return;
    }
    var cluster;
    cluster, visited := FloodFill(cells, visited0, x);
    NewComponent(cells, visited0, cluster, visited);
    AddGroup(components0, cluster, 3);
    AddComponent(components0, cluster, cells);
    if |cluster| >= 3 {
      clusters := clusters + [cluster];
    }
    components := components + [cluster];
  }

  lemma AddComponent(groups: seq<seq<Cell>>, g: seq<Cell>, cells: set<Cell>)
    requires forall j :: 0 <= j < |groups| ==> IsComponent(groups[j], cells)
    requires IsComponent(g, cells)
    ensures forall j :: 0 <= j < |groups + [g]| ==> IsComponent((groups + [g])[j], cells)
  {
    forall j | 0 <= j < |groups + [g]|
      ensures IsComponent((groups + [g])[j], cells)
    {
      if j < |groups| {
        assert (groups + [g])[j] == groups[j];
      }
    }
  }

  /**
   * A flood fill started outside a closed visited set collects a whole
   * component, and the visited set stays closed.
   */
  lemma NewComponent(cells: set<Cell>, visited0: set<Cell>, cluster: seq<Cell>, visited: set<Cell>)
    requires Closed(visited0, cells)
    requires visited == visited0 + Elems(cluster) && visited <= cells
    requires |cluster| > 0 && Distinct(cluster) && Connected(cluster)
    requires forall x :: x in cluster ==> x !in visited0
    requires forall x, y :: x in cluster && y in cells && Adjacent(x, y) ==> y in visited
    ensures IsComponent(cluster, cells)
    ensures Closed(visited, cells)
  {
    forall x, y | x in Elems(cluster) && y in cells && Adjacent(x, y)
      ensures y in Elems(cluster)
    {
      assert y in visited0 ==> x in visited0;
    }
  }

  // ------------------------------------------------------------------
  // Wall runs
  // ------------------------------------------------------------------

  /** The cell `k` steps right of `x` (horizontal) or below it (vertical). */
  function Along(x: Cell, k: int, horizontal: bool): Cell
  {
    if horizontal then (x.0, x.1 + k) else (x.0 + k, x.1)
  }

  /**
   * `run` is a maximal straight segment of `occupied`: consecutive cells
   * along one axis, all occupied, with the cells just before its first and
   * just after its last cell not occupied.
   */
  ghost predicate MaximalRun(run: seq<Cell>, occupied: set<Cell>, horizontal: bool)
  {
    && |run| > 0
    && (forall k :: 0 <= k < |run| ==> run[k] == Along(run[0], k, horizontal))
    && (forall k :: 0 <= k < |run| ==> Along(run[0], k, horizontal) in occupied)
    && Along(run[0], -1, horizontal) !in occupied
    && Along(run[0], |run|, horizontal) !in occupied
  }

  /** No cell of `visited` has an occupied cell next to it along the axis outside `visited`. */
  predicate AxisClosed(visited: set<Cell>, occupied: set<Cell>, horizontal: bool)
  {
    && (forall v :: v in visited && Along(v, 1, horizontal) in occupied ==> Along(v, 1, horizontal) in visited)
    && (forall v :: v in visited && Along(v, -1, horizontal) in occupied ==> Along(v, -1, horizontal) in visited)
  }

  /** A cell earlier in row-major order than an entry of a sorted list appears before that entry. */
  lemma EarlierInSorted(order: seq<Cell>, i: int, y: Cell)
    requires RowMajorSorted(order) && 0 <= i < |order| && RowMajorBefore(y, order[i])
    ensures y in order ==> exists j :: 0 <= j < i && order[j] == y
  {
    if y in order {
      var j :| 0 <= j < |order| && order[j] == y;
      assert j < i;
    }
  }

  /** Along an axis, the cell before `x` comes earlier in row-major order. */
  lemma BeforeIsEarlier(x: Cell, horizontal: bool)
    ensures RowMajorBefore(Along(x, -1, horizontal), x)
  {
  }

  /**
   * The cell before an unvisited entry of the sorted list is earlier in the
   * list, hence visited; being next to the entry it would have pulled the
   * entry into its run. So it is not occupied.
   */
  lemma FreshRunStart(occupied: set<Cell>, order: seq<Cell>, i: int, visited: set<Cell>, horizontal: bool)
    requires Elems(order) == occupied && RowMajorSorted(order) && 0 <= i < |order|
    requires forall j :: 0 <= j < i ==> order[j] in visited
    requires AxisClosed(visited, occupied, horizontal)
    requires order[i] !in visited
    ensures Along(order[i], -1, horizontal) !in occupied
  {
    var x := order[i];
    var prev := Along(x, -1, horizontal);
    BeforeIsEarlier(x, horizontal);
    assert Along(prev, 1, horizontal) == x;
    assert prev in occupied ==> prev in order;
    EarlierInSorted(order, i, prev);
  }

  /**
   * `_find_runs`: walks the occupied cells in sorted order; from each cell
   * not yet visited it extends right (horizontal) or down (vertical) over
   * occupied, unvisited cells. `segments` are all runs found, which split
   * the occupied cells into maximal straight segments; the result keeps
   * those of at least five cells.
   */
  method FindRuns(occupied: set<Cell>, order: seq<Cell>, horizontal: bool)
    returns (runs: seq<seq<Cell>>, ghost segments: seq<seq<Cell>>)
    requires Elems(order) == occupied && RowMajorSorted(order)
    ensures forall i :: 0 <= i < |segments| ==> MaximalRun(segments[i], occupied, horizontal)
    ensures Disjoint(segments) && Union(segments) == occupied
    ensures runs == KeepAtLeast(segments, 5)
    ensures forall i :: 0 <= i < |runs| ==> MaximalRun(runs[i], occupied, horizontal) && |runs[i]| >= 5
    ensures forall run :: MaximalRun(run, occupied, horizontal) && |run| >= 5 ==> run in runs
    ensures StartsInOrder(runs)
  {
    var visited: set<Cell> := {};
    runs := [];
    segments := [];
    for i := 0 to |order|
      invariant RunsSoFar(occupied, visited, segments, runs, horizontal)
      invariant forall j :: 0 <= j < i ==> order[j] in visited
      invariant StartsBefore(runs, order, i)
    {
      ghost var before := visited;
      visited, runs, segments := RunsStep(occupied, order, i, horizontal, visited, runs, segments);
      VisitedGrow(order, i, before, visited);
    }
    RunsDone(occupied, order, visited, segments, runs, horizontal);
  }

  lemma VisitedGrow(order: seq<Cell>, i: int, before: set<Cell>, visited: set<Cell>)
    requires 0 <= i < |order| && forall j :: 0 <= j < i ==> order[j] in before
    requires before <= visited && order[i] in visited
    ensures forall j :: 0 <= j < i + 1 ==> order[j] in visited
  {
  }

  /** Once every entry of the sorted list is visited, the segments cover the occupied cells. */
  lemma RunsDone(occupied: set<Cell>, order: seq<Cell>, visited: set<Cell>, segments: seq<seq<Cell>>,
                 runs: seq<seq<Cell>>, horizontal: bool)
    requires Elems(order) == occupied
    requires RunsSoFar(occupied, visited, segments, runs, horizontal)
    requires forall j :: 0 <= j < |order| ==> order[j] in visited
    ensures Union(segments) == occupied
    ensures forall i :: 0 <= i < |runs| ==> MaximalRun(runs[i], occupied, horizontal) && |runs[i]| >= 5
    ensures forall run :: MaximalRun(run, occupied, horizontal) && |run| >= 5 ==> run in runs
  {
    assert visited == occupied by {
      forall y | y in occupied ensures y in visited {
        var j :| 0 <= j < |order| && order[j] == y;
      }
    }
    LongRunsKept(segments, occupied, horizontal, 5);
  }

  /**
   * Keeping the segments of at least `n` cells keeps maximal runs only,
   * and every maximal run of that length is kept.
   */
  lemma LongRunsKept(segments: seq<seq<Cell>>, occupied: set<Cell>, horizontal: bool, n: int)
    requires forall i :: 0 <= i < |segments| ==> MaximalRun(segments[i], occupied, horizontal)
    requires Union(segments) == occupied
    ensures forall i :: 0 <= i < |KeepAtLeast(segments, n)| ==>
      MaximalRun(KeepAtLeast(segments, n)[i], occupied, horizontal) && |KeepAtLeast(segments, n)[i]| >= n
    ensures forall run :: MaximalRun(run, occupied, horizontal) && |run| >= n ==> run in KeepAtLeast(segments, n)
  {
    var kept := KeepAtLeast(segments, n);
    forall i | 0 <= i < |kept| ensures MaximalRun(kept[i], occupied, horizontal) && |kept[i]| >= n {
      assert kept[i] in kept;
    }
    forall run | MaximalRun(run, occupied, horizontal) && |run| >= n ensures run in kept {
      assert run[0] == Along(run[0], 0, horizontal);
      UnionMember(segments, run[0]);
      var i :| 0 <= i < |segments| && run[0] in segments[i];
      MaximalRunUnique(run, segments[i], occupied, horizontal, run[0]);
      assert segments[i] in segments;
    }
  }

  /** The loop state of `_find_runs`: the runs found so far and the cells they cover. */
  ghost predicate RunsSoFar(occupied: set<Cell>, visited: set<Cell>, segments: seq<seq<Cell>>,
                            runs: seq<seq<Cell>>, horizontal: bool)
  {
    && visited <= occupied
    && visited == Union(segments)
    && (forall j :: 0 <= j < |segments| ==> MaximalRun(segments[j], occupied, horizontal))
    && Disjoint(segments)
    && AxisClosed(visited, occupied, horizontal)
    && runs == KeepAtLeast(segments, 5)
  }

  /** One iteration of `_find_runs`: skip a visited cell, or extend a new run from it. */
  method RunsStep(occupied: set<Cell>, order: seq<Cell>, i: int, horizontal: bool,
                  visited0: set<Cell>, runs0: seq<seq<Cell>>, ghost segments0: seq<seq<Cell>>)
    returns (visited: set<Cell>, runs: seq<seq<Cell>>, ghost segments: seq<seq<Cell>>)
    requires Elems(order) == occupied && RowMajorSorted(order) && 0 <= i < |order|
    requires RunsSoFar(occupied, visited0, segments0, runs0, horizontal)
    requires forall j :: 0 <= j < i ==> order[j] in visited0
    requires StartsBefore(runs0, order, i)
    ensures RunsSoFar(occupied, visited, segments, runs, horizontal)
    ensures visited0 <= visited && order[i] in visited
    ensures StartsBefore(runs, order, i + 1)
  {
    var x := order[i];
    visited, runs, segments := visited0, runs0, segments0;
    StartsBeforeGrow(runs0, order, i);
    if x in visited {
      return;
    }
    FreshRunStart(occupied, order, i, visited0, horizontal);
    var run;
    run, visited := ExtendRun(occupied, visited0, x, horizontal);
    RunIsMaximal(run, occupied, visited0, horizontal);
    AddGroup(segments0, run, 5);
    AddRun(segments0, run, occupied, horizontal);
    if |run| >= 5 {
      StartAfterRuns(order, i, runs, run);
      runs := runs + [run];
    }
    segments := segments + [run];
  }

  /** The runs start in order, each at one of the first `i` entries of `order`. */
  predicate StartsBefore(runs: seq<seq<Cell>>, order: seq<Cell>, i: int)
    requires 0 <= i <= |order|
  {
    && StartsInOrder(runs)
    && forall j :: 0 <= j < |runs| ==> |runs[j]| > 0 && runs[j][0] in order[..i]
  }

  lemma StartsBeforeGrow(runs: seq<seq<Cell>>, order: seq<Cell>, i: int)
    requires 0 <= i < |order| && StartsBefore(runs, order, i)
    ensures StartsBefore(runs, order, i + 1)
  {
    assert order[..i + 1] == order[..i] + [order[i]];
  }

  /** A run started at entry `i` of the sorted list starts after every run started earlier. */
  lemma StartAfterRuns(order: seq<Cell>, i: int, runs: seq<seq<Cell>>, run: seq<Cell>)
    requires RowMajorSorted(order) && 0 <= i < |order|
    requires StartsBefore(runs, order, i)
    requires |run| > 0 && run[0] == order[i]
    ensures StartsBefore(runs + [run], order, i + 1)
  {
    assert forall j :: 0 <= j < |runs| ==> RowMajorBefore(runs[j][0], order[i]) by {
      forall j | 0 <= j < |runs| ensures RowMajorBefore(runs[j][0], order[i]) {
        var k :| 0 <= k < i && order[..i][k] == runs[j][0];
      }
    }
    assert order[..i + 1] == order[..i] + [order[i]];
  }

  lemma AddRun(runs: seq<seq<Cell>>, run: seq<Cell>, occupied: set<Cell>, horizontal: bool)
    requires forall j :: 0 <= j < |runs| ==> MaximalRun(runs[j], occupied, horizontal)
    requires MaximalRun(run, occupied, horizontal)
    ensures forall j :: 0 <= j < |runs + [run]| ==> MaximalRun((runs + [run])[j], occupied, horizontal)
  {
    forall j | 0 <= j < |runs + [run]|
      ensures MaximalRun((runs + [run])[j], occupied, horizontal)
    {
      if j < |runs| {
        assert (runs + [run])[j] == runs[j];
      }
    }
  }

  /** The extension loop of `_find_runs` from a fresh cell `x`. */
  method ExtendRun(occupied: set<Cell>, before: set<Cell>, x: Cell, horizontal: bool)
    returns (run: seq<Cell>, visited: set<Cell>)
    requires x in occupied && x !in before && before <= occupied
    ensures |run| >= 1 && run[0] == x
    ensures forall k :: 0 <= k < |run| ==> run[k] == Along(x, k, horizontal)
    ensures forall k :: 0 <= k < |run| ==> Along(x, k, horizontal) in occupied
    ensures forall y :: y in run ==> y !in before
    ensures visited == before + Elems(run) && visited <= occupied
    ensures Along(x, |run|, horizontal) !in occupied || Along(x, |run|, horizontal) in before
  {
    run := [x];
    visited := before + {x};
    var next := Along(x, 1, horizontal);
    assert Elems(run) == {x};
    while next in occupied && next !in visited
      invariant |run| >= 1 && run[0] == x
      invariant forall k :: 0 <= k < |run| ==> run[k] == Along(x, k, horizontal)
      invariant forall k :: 0 <= k < |run| ==> Along(x, k, horizontal) in occupied
      invariant forall y :: y in run ==> y !in before
      invariant next == Along(x, |run|, horizontal)
      invariant visited == before + Elems(run) && visited <= occupied
      decreases occupied - visited
    {
      ElemsSnoc(run, next);
      run := run + [next];
      visited := visited + {next};
      next := Along(next, 1, horizontal);
    }
    assert next !in run;
  }

  /**
   * A run extended from a cell whose predecessor is not occupied, out of
   * a visited set closed along the axis, is maximal, and the visited set
   * with it stays closed.
   */
  lemma RunIsMaximal(run: seq<Cell>, occupied: set<Cell>, before: set<Cell>, horizontal: bool)
    requires |run| >= 1
    requires forall k :: 0 <= k < |run| ==> run[k] == Along(run[0], k, horizontal)
    requires forall k :: 0 <= k < |run| ==> Along(run[0], k, horizontal) in occupied
    requires forall y :: y in run ==> y !in before
    requires Along(run[0], -1, horizontal) !in occupied
    requires Along(run[0], |run|, horizontal) !in occupied || Along(run[0], |run|, horizontal) in before
    requires AxisClosed(before, occupied, horizontal)
    ensures MaximalRun(run, occupied, horizontal)
    ensures AxisClosed(before + Elems(run), occupied, horizontal)
  {
    var n := |run|;
    var after := before + Elems(run);
    var last := Along(run[0], n, horizontal);
    assert Along(last, -1, horizontal) == run[n - 1];
    assert last !in occupied;
    forall v | v in after && Along(v, 1, horizontal) in occupied
      ensures Along(v, 1, horizontal) in after
    {
      if v in run {
        var k :| 0 <= k < n && run[k] == v;
        assert k + 1 < n ==> Along(v, 1, horizontal) == run[k + 1];
      }
    }
    forall v | v in after && Along(v, -1, horizontal) in occupied
      ensures Along(v, -1, horizontal) in after
    {
      if v in run {
        var k :| 0 <= k < n && run[k] == v;
        assert 0 < k ==> Along(v, -1, horizontal) == run[k - 1];
      }
    }
  }

  /** Two maximal runs along the same axis that share a cell are the same run. */
  lemma {:induction false} MaximalRunUnique(a: seq<Cell>, b: seq<Cell>, occupied: set<Cell>, horizontal: bool, x: Cell)
    requires MaximalRun(a, occupied, horizontal) && MaximalRun(b, occupied, horizontal)
    requires x in a && x in b
    ensures a == b
  {
    var i :| 0 <= i < |a| && a[i] == x;
    var j :| 0 <= j < |b| && b[j] == x;
    // Each run starts where the other one's cells stop being occupied.
    assert Along(a[0], -1, horizontal) == Along(b[0], j - i - 1, horizontal);
    assert Along(b[0], -1, horizontal) == Along(a[0], i - j - 1, horizontal);
    assert a[0] == b[0];
    assert Along(a[0], |b|, horizontal) !in occupied;
    assert Along(b[0], |a|, horizontal) !in occupied;
  }
}
