/**
 * The labyrinth solver: a grid of text rows where '.' is open floor. Every
 * open cell of the first row is an entrance; from each entrance a depth-first
 * search over simple paths of four-way moves keeps the longest path it meets,
 * and the longest of those per-entrance paths is the answer.
 */
module Labyrinth {

  /** A cell as (row, column). */
  type Node = (int, int)

  type Grid = seq<string>

  /** Open floor is exactly the character '.'. */
  predicate IsSpaceAvailable(c: char) {
    c == '.'
  }

  /** Every row as long as the first: the solver indexes neighbouring rows with the column of the current one. */
  predicate Rectangular(lab: Grid) {
    forall i :: 0 <= i < |lab| ==> |lab[i]| == |lab[0]|
  }

  predicate InBounds(lab: Grid, n: Node) {
    0 <= n.0 < |lab| && 0 <= n.1 < |lab[n.0]|
  }

  predicate IsOpen(lab: Grid, n: Node) {
    InBounds(lab, n) && IsSpaceAvailable(lab[n.0][n.1])
  }

  /** One step down, up, right or left. */
  predicate Adjacent(a: Node, b: Node) {
    || b == (a.0 + 1, a.1)
    || b == (a.0 - 1, a.1)
    || b == (a.0, a.1 + 1)
    || b == (a.0, a.1 - 1)
  }

  /** The position of the move from a to b in the order down, up, right, left. */
  function MoveRank(a: Node, b: Node): int {
    if b == (a.0 + 1, a.1) then 0
    else if b == (a.0 - 1, a.1) then 1
    else if b == (a.0, a.1 + 1) then 2
    else 3
  }

  predicate Distinct<T(==)>(s: seq<T>) {
    forall i, j :: 0 <= i < j < |s| ==> s[i] != s[j]
  }

  /** The open cells one step away from n, probed down, up, right, left. */
  function GetNeighbours(lab: Grid, n: Node): seq<Node>
    requires Rectangular(lab) && InBounds(lab, n)
  {
    var (row, col) := n;
    (if row + 1 < |lab| && IsSpaceAvailable(lab[row + 1][col]) then [(row + 1, col)] else [])
    + (if row - 1 >= 0 && IsSpaceAvailable(lab[row - 1][col]) then [(row - 1, col)] else [])
    + (if col + 1 < |lab[row]| && IsSpaceAvailable(lab[row][col + 1]) then [(row, col + 1)] else [])
    + (if col - 1 >= 0 && IsSpaceAvailable(lab[row][col - 1]) then [(row, col - 1)] else [])
  }

  /** The candidate m, kept when open. */
  function Probe(lab: Grid, m: Node): (s: seq<Node>)
    ensures s == [m] || s == []
  {
    if IsOpen(lab, m) then [m] else []
  }

  /** Each probe of the grid is the open-cell test on the candidate cell. */
  lemma NeighboursAreProbes(lab: Grid, n: Node)
    requires Rectangular(lab) && InBounds(lab, n)
    ensures GetNeighbours(lab, n) ==
            Probe(lab, (n.0 + 1, n.1)) + Probe(lab, (n.0 - 1, n.1)) + Probe(lab, (n.0, n.1 + 1)) + Probe(lab, (n.0, n.1 - 1))
  {
    var (row, col) := n;
    assert |lab[row]| == |lab[0]|;
    var down := if row + 1 < |lab| && IsSpaceAvailable(lab[row + 1][col]) then [(row + 1, col)] else [];
    var up := if row - 1 >= 0 && IsSpaceAvailable(lab[row - 1][col]) then [(row - 1, col)] else [];
    var right := if col + 1 < |lab[row]| && IsSpaceAvailable(lab[row][col + 1]) then [(row, col + 1)] else [];
    var left := if col - 1 >= 0 && IsSpaceAvailable(lab[row][col - 1]) then [(row, col - 1)] else [];
    assert down == Probe(lab, (row + 1, col)) by {
      if row + 1 < |lab| {
        assert |lab[row + 1]| == |lab[0]|;
      }
    }
    assert up == Probe(lab, (row - 1, col)) by {
      if row - 1 >= 0 {
        assert |lab[row - 1]| == |lab[0]|;
      }
    }
    assert right == Probe(lab, (row, col + 1));
    assert left == Probe(lab, (row, col - 1));
    assert GetNeighbours(lab, n) == down + up + right + left;
  }

  /**
   * The neighbours of n are exactly the open cells one step away, each listed
   * once, in the order down, up, right, left.
   */
  lemma NeighboursSpec(lab: Grid, n: Node)
    requires Rectangular(lab) && InBounds(lab, n)
    ensures forall m :: m in GetNeighbours(lab, n) <==> IsOpen(lab, m) && Adjacent(n, m)
    ensures forall i, j :: 0 <= i < j < |GetNeighbours(lab, n)| ==>
              MoveRank(n, GetNeighbours(lab, n)[i]) < MoveRank(n, GetNeighbours(lab, n)[j])
    ensures Distinct(GetNeighbours(lab, n))
  {
    NeighboursAreProbes(lab, n);
    var ns := GetNeighbours(lab, n);
    var d, u, r, l := Probe(lab, (n.0 + 1, n.1)), Probe(lab, (n.0 - 1, n.1)), Probe(lab, (n.0, n.1 + 1)), Probe(lab, (n.0, n.1 - 1));
    assert ns == d + u + r + l;
    forall m ensures m in ns <==> IsOpen(lab, m) && Adjacent(n, m) {
      assert m in ns <==> m in d || m in u || m in r || m in l;
    }
    assert forall i :: 0 <= i < |ns| ==> ns[i] in ns;
    forall i, j | 0 <= i < j < |ns| ensures MoveRank(n, ns[i]) < MoveRank(n, ns[j]) {
      RankedConcat(n, d, u, r, l, i, j);
    }
  }

  /** Index reasoning for NeighboursSpec: concatenated probes keep their rank order. */
  lemma RankedConcat(n: Node, d: seq<Node>, u: seq<Node>, r: seq<Node>, l: seq<Node>, i: int, j: int)
    requires d == [] || d == [(n.0 + 1, n.1)]
    requires u == [] || u == [(n.0 - 1, n.1)]
    requires r == [] || r == [(n.0, n.1 + 1)]
    requires l == [] || l == [(n.0, n.1 - 1)]
    requires 0 <= i < j < |d + u + r + l|
    ensures MoveRank(n, (d + u + r + l)[i]) < MoveRank(n, (d + u + r + l)[j])
  {
    var s := d + u + r + l;
    assert forall k :: 0 <= k < |d| ==> MoveRank(n, s[k]) == 0;
    assert forall k :: |d| <= k < |d + u| ==> MoveRank(n, s[k]) == 1;
    assert forall k :: |d + u| <= k < |d + u + r| ==> MoveRank(n, s[k]) == 2;
    assert forall k :: |d + u + r| <= k < |s| ==> MoveRank(n, s[k]) == 3;
  }

  /** adj maps exactly the open cells, each to its neighbour list. */
  ghost predicate AdjacencyOf(lab: Grid, adj: map<Node, seq<Node>>)
    requires Rectangular(lab)
  {
    && (forall n :: n in adj <==> IsOpen(lab, n))
    && (forall n :: n in adj ==> adj[n] == GetNeighbours(lab, n))
  }

  /** Scans the grid row by row and maps every open cell to its neighbours. */
  method GetAdjacencyList(lab: Grid) returns (adj: map<Node, seq<Node>>)
    requires Rectangular(lab)
    ensures AdjacencyOf(lab, adj)
  {
    adj := map[];
    var row := 0;
    while row < |lab|
      invariant 0 <= row <= |lab|
      invariant forall n :: n in adj <==> IsOpen(lab, n) && n.0 < row
      invariant forall n :: n in adj ==> adj[n] == GetNeighbours(lab, n)
    {
      var col := 0;
      while col < |lab[row]|
        invariant 0 <= col <= |lab[row]|
        invariant forall n :: n in adj <==> IsOpen(lab, n) && (n.0 < row || (n.0 == row && n.1 < col))
        invariant forall n :: n in adj ==> adj[n] == GetNeighbours(lab, n)
      {
        if IsSpaceAvailable(lab[row][col]) {
          var node := (row, col);
          adj := adj[node := GetNeighbours(lab, node)];
        }
        col := col + 1;
      }
      row := row + 1;
    }
  }

  /** adj maps exactly the open cells, each to a list holding exactly its open neighbours. */
  ghost predicate ListsOpenNeighbours(lab: Grid, adj: map<Node, seq<Node>>) {
    && (forall n :: n in adj <==> IsOpen(lab, n))
    && (forall n, m :: n in adj ==> (m in adj[n] <==> IsOpen(lab, m) && Adjacent(n, m)))
  }

  /** The adjacency list of a grid lists the open cells next to every open cell. */
  lemma AdjacencyNeighbours(lab: Grid, adj: map<Node, seq<Node>>)
    requires Rectangular(lab) && AdjacencyOf(lab, adj)
    ensures ListsOpenNeighbours(lab, adj)
  {
    forall n | n in adj ensures forall m :: m in adj[n] <==> IsOpen(lab, m) && Adjacent(n, m) {
      NeighboursSpec(lab, n);
    }
  }

  /** The adjacency list is closed and symmetric: a neighbour of a key is a key listing it back. */
  lemma AdjacencySymmetric(lab: Grid, adj: map<Node, seq<Node>>, n: Node, m: Node)
    requires ListsOpenNeighbours(lab, adj)
    requires n in adj && m in adj[n]
    ensures m in adj && n in adj[m] && Adjacent(n, m)
  {
    assert IsOpen(lab, m) && Adjacent(n, m);
    if m == (n.0 + 1, n.1) {
      assert n == (m.0 - 1, m.1);
    } else if m == (n.0 - 1, n.1) {
      assert n == (m.0 + 1, m.1);
    } else if m == (n.0, n.1 + 1) {
      assert n == (m.0, m.1 - 1);
    } else {
      assert n == (m.0, m.1 + 1);
    }
  }

  /** The open cells of the first row, left to right, as cells of row 0. */
  method GetEntrances(firstRow: string) returns (entrances: seq<Node>)
    ensures forall n :: n in entrances <==> n.0 == 0 && 0 <= n.1 < |firstRow| && IsSpaceAvailable(firstRow[n.1])
    ensures forall i, j :: 0 <= i < j < |entrances| ==> entrances[i].1 < entrances[j].1
  {
    entrances := [];
    var index := 0;
    while index < |firstRow|
      invariant 0 <= index <= |firstRow|
      invariant forall n :: n in entrances <==> n.0 == 0 && 0 <= n.1 < index && IsSpaceAvailable(firstRow[n.1])
      invariant forall i, j :: 0 <= i < j < |entrances| ==> entrances[i].1 < entrances[j].1
      invariant forall i :: 0 <= i < |entrances| ==> entrances[i].1 < index
    {
      if IsSpaceAvailable(firstRow[index]) {
        entrances := entrances + [(0, index)];
      }
      index := index + 1;
    }
  }

  /**
   * q is a simple path through adj that starts at start and avoids every
   * cell of avoid.
   */
  ghost predicate SimpleWalkFrom(adj: map<Node, seq<Node>>, start: Node, avoid: set<Node>, q: seq<Node>) {
    && |q| >= 1 && q[0] == start
    && (forall i :: 0 <= i < |q| - 1 ==> q[i] in adj && q[i + 1] in adj[q[i]])
    && Distinct(q)
    && (forall i :: 0 <= i < |q| ==> q[i] !in avoid)
  }

  /** No simple path from start that avoids avoid is longer than bound. */
  ghost predicate Bounds(adj: map<Node, seq<Node>>, start: Node, avoid: set<Node>, bound: int) {
    forall q :: SimpleWalkFrom(adj, start, avoid, q) ==> |q| <= bound
  }

  /** A walk from a neighbour of node, avoiding node, extends to a walk from node. */
  lemma ExtendWalk(adj: map<Node, seq<Node>>, node: Node, avoid: set<Node>, w: seq<Node>)
    requires node in adj && node !in avoid && |w| >= 1 && w[0] in adj[node]
    requires SimpleWalkFrom(adj, w[0], avoid + {node}, w)
    ensures SimpleWalkFrom(adj, node, avoid, [node] + w)
  {
    var q := [node] + w;
    forall i | 0 <= i < |q| - 1
      ensures q[i] in adj && q[i + 1] in adj[q[i]]
    {
      if i > 0 {
        assert q[i] == w[i - 1] && q[i + 1] == w[i];
      }
    }
    forall i, j | 0 <= i < j < |q| ensures q[i] != q[j] {
      if i > 0 {
        assert q[i] == w[i - 1] && q[j] == w[j - 1];
      } else {
        assert q[j] == w[j - 1];
      }
    }
  }

  /**
   * The bound at node follows from the bounds at its neighbours: a simple
   * walk from node is node alone or node followed by a simple walk from one
   * neighbour that avoids node.
   */
  lemma BoundsStep(adj: map<Node, seq<Node>>, node: Node, avoid: set<Node>, bound: int)
    requires node !in avoid && 1 <= bound
    requires node in adj ==> forall j :: 0 <= j < |adj[node]| ==> Bounds(adj, adj[node][j], avoid + {node}, bound - 1)
    ensures Bounds(adj, node, avoid, bound)
  {
    forall q | SimpleWalkFrom(adj, node, avoid, q) ensures |q| <= bound {
      if |q| > 1 {
        assert q[0] in adj && q[1] in adj[node];
        var j :| 0 <= j < |adj[node]| && adj[node][j] == q[1];
        var w := q[1..];
        assert SimpleWalkFrom(adj, q[1], avoid + {node}, w) by {
          forall i | 0 <= i < |w| - 1 ensures w[i] in adj && w[i + 1] in adj[w[i]] {
            assert w[i] == q[i + 1] && w[i + 1] == q[i + 2];
          }
          forall i, k | 0 <= i < k < |w| ensures w[i] != w[k] {
            assert w[i] == q[i + 1] && w[k] == q[k + 1];
          }
          forall i | 0 <= i < |w| ensures w[i] !in avoid + {node} {
            assert w[i] == q[i + 1] && q[0] != q[i + 1];
          }
        }
        assert Bounds(adj, adj[node][j], avoid + {node}, bound - 1);
      }
    }
  }

  /** The outcome of one call of the search, relative to the longest path it was given. */
  ghost predicate Improves(adj: map<Node, seq<Node>>, node: Node, visited: set<Node>, path: seq<Node>,
                           longest: seq<Node>, longest': seq<Node>)
  {
    || longest' == longest
    || (&& |longest'| > |longest|
        && |longest'| > |path|
        && longest'[..|path|] == path
        && SimpleWalkFrom(adj, node, visited, longest'[|path|..]))
  }

  /**
   * The depth-first search. An unvisited node is appended to path and marked
   * visited; path replaces longest when strictly longer; then every neighbour
   * is searched with its own copy of the visited set, while longest is shared.
   * The caller's visited set gains node only.
   */
  method Navigate(node: Node, adj: map<Node, seq<Node>>, visited: set<Node>, longest: seq<Node>, path: seq<Node>)
    returns (visited': set<Node>, longest': seq<Node>)
    ensures visited' == visited + {node}
    ensures |longest'| >= |longest|
    ensures Improves(adj, node, visited, path, longest, longest')
    ensures node !in visited ==> Bounds(adj, node, visited, |longest'| - |path|)
    decreases |adj.Keys - visited|
  {
    visited', longest' := visited, longest;
    if node !in visited {
      var path' := path + [node];
      visited' := visited + {node};
      if |path'| > |longest'| {
        longest' := path';
        assert longest'[|path|..] == [node];
      }
      if node in adj {
        var neighbours := adj[node];
        var i := 0;
        while i < |neighbours|
          invariant 0 <= i <= |neighbours|
          invariant |longest'| >= |path'| && |longest'| >= |longest|
          invariant Improves(adj, node, visited, path, longest, longest')
          invariant forall j :: 0 <= j < i ==> Bounds(adj, neighbours[j], visited', |longest'| - |path'|)
        {
          var neighbour := neighbours[i];
          var visitedCopy := visited';
          assert |adj.Keys - visitedCopy| < |adj.Keys - visited| by {
            assert adj.Keys - visitedCopy == (adj.Keys - visited) - {node};
          }
          ghost var before := longest';
          var _, longestChild := Navigate(neighbour, adj, visitedCopy, longest', path');
          ChildImproves(adj, node, visited, path, longest, before, longestChild, neighbour);
          longest' := longestChild;
          i := i + 1;
        }
      }
      BoundsStep(adj, node, visited, |longest'| - |path|);
    }
  }

  /** Chaining the outcome of a search from a neighbour onto the outcome so far. */
  lemma ChildImproves(adj: map<Node, seq<Node>>, node: Node, visited: set<Node>, path: seq<Node>,
                      longest: seq<Node>, before: seq<Node>, after: seq<Node>, neighbour: Node)
    requires node in adj && node !in visited && neighbour in adj[node]
    requires |before| >= |path| + 1
    requires Improves(adj, node, visited, path, longest, before)
    requires Improves(adj, neighbour, visited + {node}, path + [node], before, after)
    requires |after| >= |before|
    ensures Improves(adj, node, visited, path, longest, after)
  {
    if after != before {
      var w := after[|path| + 1..];
      assert after[..|path|] == (path + [node])[..|path|] == path by {
        assert after[..|path|] == after[..|path| + 1][..|path|];
      }
      assert after[|path|] == node by {
        assert after[|path|] == after[..|path| + 1][|path|];
      }
      ExtendWalk(adj, node, visited, w);
      assert after[|path|..] == [node] + w;
    }
  }

  /** One search per entrance, each from an empty path and an empty visited set. */
  method FindLongestPaths(adj: map<Node, seq<Node>>, entrances: seq<Node>) returns (paths: seq<seq<Node>>)
    ensures |paths| == |entrances|
    ensures forall k :: 0 <= k < |entrances| ==>
              SimpleWalkFrom(adj, entrances[k], {}, paths[k]) && Bounds(adj, entrances[k], {}, |paths[k]|)
  {
    paths := [];
    var k := 0;
    while k < |entrances|
      invariant 0 <= k <= |entrances| && |paths| == k
      invariant forall j :: 0 <= j < k ==>
                  SimpleWalkFrom(adj, entrances[j], {}, paths[j]) && Bounds(adj, entrances[j], {}, |paths[j]|)
    {
      var entrance := entrances[k];
      var visited: set<Node> := {};
      var path: seq<Node> := [];
      var longestPath: seq<Node> := [];
      visited, longestPath := Navigate(entrance, adj, visited, longestPath, path);
      SingletonWalk(adj, entrance);
      assert longestPath[|path|..] == longestPath;
      paths := paths + [longestPath];
      k := k + 1;
    }
  }

  /** A single node is a simple walk from itself. */
  lemma SingletonWalk(adj: map<Node, seq<Node>>, n: Node)
    ensures SimpleWalkFrom(adj, n, {}, [n])
  {
  }

  /**
   * The selection in the driver: the first path of greatest length, or the
   * empty path when every path is empty.
   */
  method SelectLongest(paths: seq<seq<Node>>) returns (longest: seq<Node>)
    ensures forall k :: 0 <= k < |paths| ==> |paths[k]| <= |longest|
    ensures longest == [] || exists k :: 0 <= k < |paths| && paths[k] == longest &&
                                         forall j :: 0 <= j < k ==> |paths[j]| < |longest|
  {
    longest := [];
    var longestSize := 0;
    ghost var chosen := -1;
    var k := 0;
    while k < |paths|
      invariant 0 <= k <= |paths|
      invariant longestSize == |longest|
      invariant forall j :: 0 <= j < k ==> |paths[j]| <= |longest|
      invariant -1 <= chosen < k
      invariant chosen == -1 ==> longest == []
      invariant chosen >= 0 ==> paths[chosen] == longest && forall j :: 0 <= j < chosen ==> |paths[j]| < |longest|
    {
      var path := paths[k];
      if |path| > longestSize {
        longestSize := |path|;
        longest := path;
        chosen := k;
      }
      k := k + 1;
    }
  }

  /**
   * A path in the grid: open cells, each a step away from the previous one,
   * none repeated.
   */
  ghost predicate GridPath(lab: Grid, q: seq<Node>) {
    && (forall i :: 0 <= i < |q| ==> IsOpen(lab, q[i]))
    && (forall i :: 0 <= i < |q| - 1 ==> Adjacent(q[i], q[i + 1]))
    && Distinct(q)
  }

  /** Over the adjacency list of a grid, simple walks are exactly the grid paths. */
  lemma WalksAreGridPaths(lab: Grid, adj: map<Node, seq<Node>>, start: Node, q: seq<Node>)
    requires ListsOpenNeighbours(lab, adj) && IsOpen(lab, start)
    ensures SimpleWalkFrom(adj, start, {}, q) <==> |q| >= 1 && q[0] == start && GridPath(lab, q)
  {
    if SimpleWalkFrom(adj, start, {}, q) {
      forall i | 0 <= i < |q| ensures IsOpen(lab, q[i]) {
        if i > 0 {
          AdjacencySymmetric(lab, adj, q[i - 1], q[i]);
        }
      }
      forall i | 0 <= i < |q| - 1 ensures Adjacent(q[i], q[i + 1]) {
        AdjacencySymmetric(lab, adj, q[i], q[i + 1]);
      }
    }
    if |q| >= 1 && q[0] == start && GridPath(lab, q) {
      forall i | 0 <= i < |q| - 1 ensures q[i] in adj && q[i + 1] in adj[q[i]] {
        assert IsOpen(lab, q[i]) && IsOpen(lab, q[i + 1]);
      }
    }
  }

  /**
   * The whole search: build the adjacency list, take the entrances of the
   * first row, search from each and keep the first longest path. The result
   * is empty exactly when the first row has no opening; otherwise it is a
   * grid path from an entrance, and no grid path from any entrance is longer.
   */
  method Solve(lab: Grid) returns (best: seq<Node>)
    requires |lab| >= 1 && Rectangular(lab)
    ensures best == [] <==> forall c :: 0 <= c < |lab[0]| ==> !IsSpaceAvailable(lab[0][c])
    ensures best != [] ==> best[0].0 == 0 && IsOpen(lab, best[0]) && GridPath(lab, best)
    ensures forall q: seq<Node> :: |q| >= 1 && q[0].0 == 0 && GridPath(lab, q) ==> |q| <= |best|
  {
    var adj := GetAdjacencyList(lab);
    AdjacencyNeighbours(lab, adj);
    var entrances := GetEntrances(lab[0]);
    var paths := FindLongestPaths(adj, entrances);
    best := SelectLongest(paths);
    if best != [] {
      var k :| 0 <= k < |paths| && paths[k] == best;
      WalksAreGridPaths(lab, adj, entrances[k], best);
    }
    forall q: seq<Node> | |q| >= 1 && q[0].0 == 0 && GridPath(lab, q) ensures |q| <= |best| {
      assert q[0] in entrances;
      var k :| 0 <= k < |entrances| && entrances[k] == q[0];
      WalksAreGridPaths(lab, adj, entrances[k], q);
    }
    if !forall c :: 0 <= c < |lab[0]| ==> !IsSpaceAvailable(lab[0][c]) {
      var c :| 0 <= c < |lab[0]| && IsSpaceAvailable(lab[0][c]);
      assert (0, c) in entrances;
      var k :| 0 <= k < |entrances| && entrances[k] == (0, c);
      assert |paths[k]| >= 1;
    }
  }
}
