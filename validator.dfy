/**
 * `hc_validate`: decides whether a tour of n nodes is a Hamiltonian cycle
 * of a graph given as an adjacency matrix indexed 1..n (row and column 0
 * unused).  The checks run in order and stop at the first failure: equal
 * node counts, a non-empty graph, one walk along the tour checking each
 * step's edge while marking visited nodes, coverage of all n nodes, and
 * the edge closing the cycle from the first node to the last.
 */
module Validator {

  datatype Option<T> = None | Some(value: T)

  /** The verdict, with the reason the source prints in verbose mode. */
  datatype Outcome =
    | Valid
    | SizeMismatch                           // the tour and graph node counts differ
    | EmptyGraph                             // the graph has no nodes
    | MissingEdge(from: int, to: int)        // no edge between two consecutive tour nodes
    | NotAllVisited(visited: nat, expected: int)
    | NotClosed(first: int, last: int)       // no edge from the first node to the last

  /** An adjacency matrix as rows; a cell other than 0 is an edge. */
  type Matrix = seq<seq<int>>

  /** The rows of a two-dimensional array. */
  ghost function Rows(g: array2<int>): (m: Matrix)
    reads g
    ensures |m| == g.Length0
    ensures forall i :: 0 <= i < |m| ==> |m[i]| == g.Length1
    ensures forall i, j :: 0 <= i < g.Length0 && 0 <= j < g.Length1 ==> m[i][j] == g[i, j]
  {
    seq(g.Length0, i requires 0 <= i < g.Length0 reads g =>
      seq(g.Length1, j requires 0 <= j < g.Length1 reads g => g[i, j]))
  }

  /** Every entry of `w` is in 0..n and every cell the walk may read exists. */
  predicate Indexes(w: seq<int>, m: Matrix, n: int) {
    n < |m| && (forall r :: 0 <= r < |m| ==> n < |m[r]|) &&
    forall i :: 0 <= i < |w| ==> 0 <= w[i] <= n
  }

  /** What the walk needs: n tour entries, each in 0..n, and an (n+1)-square part of the matrix. */
  predicate Walkable(t: seq<int>, m: Matrix, n: int) {
    0 <= n <= |t| && n < |m| && (forall r :: 0 <= r < |m| ==> n < |m[r]|) &&
    forall i :: 0 <= i < n ==> 0 <= t[i] <= n
  }

  /** The array form of `Walkable`: what `hc_validate` reads without bounds checks. */
  predicate Fits(tour: array<int>, graph: array2<int>, n: int)
    reads tour, graph
  {
    0 <= n <= tour.Length && n < graph.Length0 && n < graph.Length1 &&
    forall i :: 0 <= i < n ==> 0 <= tour[i] <= n
  }

  predicate Distinct(s: seq<int>) {
    forall i, j :: 0 <= i < j < |s| ==> s[i] != s[j]
  }

  /** The set of nodes a walk has marked as visited. */
  function Nodes(s: seq<int>): set<int>
  {
    set x | x in s
  }

  /** Extending a walk by one node adds that node to the visited set. */
  lemma NodesSnoc(s: seq<int>, x: int)
    ensures Nodes(s + [x]) == Nodes(s) + {x}
  {
  }

  /** The marks array records exactly the visited nodes: 1 for a visited node, 0 otherwise. */
  ghost predicate Marks(visited: array<int>, seen: set<int>)
    reads visited
  {
    forall v :: 0 <= v < visited.Length ==> visited[v] == if v in seen then 1 else 0
  }

  /** The nodes 1..n. */
  function Range(n: int): (r: set<int>)
    ensures forall v :: v in r <==> 1 <= v <= n
    ensures |r| == if n < 0 then 0 else n
  {
    if n <= 0 then {} else Range(n - 1) + {n}
  }

  /** The first step of the walk whose edge is missing: the least k with no edge from w[k-1] to w[k]. */
  function FirstMissingEdge(w: seq<int>, m: Matrix, n: int): (r: Option<nat>)
    requires Indexes(w, m, n)
    ensures r.None? <==> forall k :: 1 <= k < |w| ==> m[w[k - 1]][w[k]] != 0
    ensures r.Some? ==> 1 <= r.value < |w| && m[w[r.value - 1]][w[r.value]] == 0 &&
                        forall k :: 1 <= k < r.value ==> m[w[k - 1]][w[k]] != 0
  {
    if |w| <= 1 then None
    else
      var p := w[..|w| - 1];
      assert forall k :: 0 <= k < |p| ==> p[k] == w[k];
      match FirstMissingEdge(p, m, n)
      case Some(k) => Some(k)
      case None => if m[w[|w| - 2]][w[|w| - 1]] == 0 then Some(|w| - 1) else None
  }

  /** A walk that finds every edge before `pos` and none at `pos` stops at the first missing edge. */
  lemma WalkStopsAtFirstMissingEdge(w: seq<int>, m: Matrix, n: int, pos: nat)
    requires Indexes(w, m, n) && pos <= |w|
    requires forall k :: 1 <= k < pos ==> m[w[k - 1]][w[k]] != 0
    requires pos < |w| ==> 1 <= pos && m[w[pos - 1]][w[pos]] == 0
    ensures FirstMissingEdge(w, m, n) == if pos < |w| then Some(pos) else None
  {
  }

  /**
   * The outcome `hc_validate` reaches on the tour `t` of `tn` nodes and a
   * graph of `n` nodes, checks taken in the source's order.
   */
  function Expected(t: seq<int>, tn: int, m: Matrix, n: int): (r: Outcome)
    requires tn == n && n > 0 ==> Walkable(t, m, n)
    ensures r == Valid ==> tn == n && n > 0
    ensures tn == n && n < 0 ==> r == NotAllVisited(0, n)
  {
    if tn != n then SizeMismatch
    else if n == 0 then EmptyGraph
    else
      var w := if n < 0 then [] else t[..n];
      match FirstMissingEdge(w, m, n)
      case Some(k) => MissingEdge(w[k - 1], w[k])
      case None =>
        if |Nodes(w)| != n then NotAllVisited(|Nodes(w)|, n)
        else if m[w[0]][w[n - 1]] == 0 then NotClosed(w[0], w[n - 1])
        else Valid
  }

  /** The outcome once the walk has stopped at `pos`: a missing edge there, else the coverage and closing checks. */
  lemma ExpectedAfterWalk(t: seq<int>, m: Matrix, n: int, pos: nat)
    requires n > 0 && Walkable(t, m, n) && pos <= n
    requires forall k :: 1 <= k < pos ==> m[t[k - 1]][t[k]] != 0
    requires pos < n ==> 1 <= pos && m[t[pos - 1]][t[pos]] == 0
    ensures pos < n ==> Expected(t, n, m, n) == MissingEdge(t[pos - 1], t[pos])
    ensures pos == n ==> Expected(t, n, m, n) ==
                           (if |Nodes(t[..n])| != n then NotAllVisited(|Nodes(t[..n])|, n)
                            else if m[t[0]][t[n - 1]] == 0 then NotClosed(t[0], t[n - 1])
                            else Valid)
  {
    var w := t[..n];
    assert Indexes(w, m, n);
    assert forall k :: 1 <= k < pos ==> m[w[k - 1]][w[k]] != 0;
    WalkStopsAtFirstMissingEdge(w, m, n, pos);
  }

  /**
   * A Hamiltonian cycle of the graph on nodes 1..n: the tour lists every
   * node once, each step follows an edge, and the last node connects back
   * to the first.
   */
  ghost predicate IsHamiltonianCycle(w: seq<int>, m: Matrix, n: int) {
    1 <= n == |w| && Indexes(w, m, n) &&
    (forall i :: 0 <= i < n ==> w[i] != 0) &&
    Distinct(w) &&
    (forall i :: 1 <= i < n ==> m[w[i - 1]][w[i]] != 0) &&
    m[w[0]][w[n - 1]] != 0
  }

  /** Row 0 and column 0 hold no edge, as in every matrix the graph reader builds. */
  ghost predicate ZeroBorder(m: Matrix, n: int) {
    |m| > n && (forall r :: 0 <= r < |m| ==> |m[r]| > n) &&
    forall v :: 0 <= v <= n ==> m[0][v] == 0 && m[v][0] == 0
  }

  /** The visited count: a walk marks as many nodes as it has steps exactly when it repeats none. */
  lemma {:induction false} NodesCount(s: seq<int>)
    ensures |Nodes(s)| <= |s|
    ensures |Nodes(s)| == |s| <==> Distinct(s)
  {
    if s != [] {
      var p, x := s[..|s| - 1], s[|s| - 1];
      NodesCount(p);
      if x in p {
        var j :| 0 <= j < |p| && p[j] == x;
        assert s[j] == s[|s| - 1];
        assert Nodes(s) == Nodes(p);
      } else {
        assert Nodes(s) == Nodes(p) + {x};
        assert |Nodes(s)| == |Nodes(p)| + 1;
        if Distinct(p) {
          forall i, j | 0 <= i < j < |s| ensures s[i] != s[j] {
            if j < |s| - 1 {
              assert s[i] == p[i] && s[j] == p[j];
            } else {
              assert s[i] == p[i];
            }
          }
        }
        if Distinct(s) {
          forall i, j | 0 <= i < j < |p| ensures p[i] != p[j] {
            assert s[i] == p[i] && s[j] == p[j];
          }
        }
      }
    }
  }

  /** A subset at least as large as its superset is the whole superset. */
  lemma FullSubset(a: set<int>, b: set<int>)
    requires a <= b && |a| >= |b|
    ensures a == b
  {
    var extra := b - a;
    assert b == a + extra && a * extra == {};
    assert |b| == |a| + |extra|;
  }

  /** A Hamiltonian cycle visits every node 1..n. */
  lemma HamiltonianVisitsAll(w: seq<int>, m: Matrix, n: int)
    requires IsHamiltonianCycle(w, m, n)
    ensures forall v :: 1 <= v <= n ==> v in w
  {
    NodesCount(w);
    var all := Range(n);
    assert Nodes(w) <= all;
    FullSubset(Nodes(w), all);
    forall v | 1 <= v <= n ensures v in w {
      assert v in Nodes(w);
    }
  }

  /** A Hamiltonian cycle passes every check. */
  lemma HamiltonianAccepted(t: seq<int>, m: Matrix, n: int)
    requires n > 0 && Walkable(t, m, n)
    requires IsHamiltonianCycle(t[..n], m, n)
    ensures Expected(t, n, m, n) == Valid
  {
    NodesCount(t[..n]);
  }

  /**
   * A tour that passes every check is a Hamiltonian cycle, provided row and
   * column 0 of the matrix are empty: a 0 entry then fails a step or the
   * closing edge.
   */
  lemma AcceptedIsHamiltonian(t: seq<int>, m: Matrix, n: int)
    requires n > 0 && Walkable(t, m, n) && ZeroBorder(m, n)
    requires Expected(t, n, m, n) == Valid
    ensures IsHamiltonianCycle(t[..n], m, n)
  {
    var w := t[..n];
    NodesCount(w);
    forall i | 0 <= i < n ensures w[i] != 0 {
      if i > 0 {
        assert m[w[i - 1]][w[i]] != 0 && m[w[i - 1]][0] == 0;
      } else if n > 1 {
        assert m[w[0]][w[1]] != 0 && m[0][w[1]] == 0;
      } else {
        assert m[w[0]][w[0]] != 0 && m[0][0] == 0;
      }
    }
  }

  /**
   * The verdict is `Valid` exactly for Hamiltonian cycles, given a matrix
   * whose row and column 0 are empty (node 0 has no edges).
   */
  lemma ValidIffHamiltonian(t: seq<int>, m: Matrix, n: int)
    requires n > 0 && Walkable(t, m, n) && ZeroBorder(m, n)
    ensures Expected(t, n, m, n) == Valid <==> IsHamiltonianCycle(t[..n], m, n)
  {
    if Expected(t, n, m, n) == Valid {
      AcceptedIsHamiltonian(t, m, n);
    }
    if IsHamiltonianCycle(t[..n], m, n) {
      HamiltonianAccepted(t, m, n);
    }
  }

  /** A step without an edge makes the walk fail, at that step or an earlier one. */
  lemma MissingEdgeRejected(t: seq<int>, m: Matrix, n: int, k: nat)
    requires n > 0 && Walkable(t, m, n)
    requires 1 <= k < n && m[t[k - 1]][t[k]] == 0
    ensures Expected(t, n, m, n).MissingEdge?
    ensures (forall j :: 1 <= j < k ==> m[t[j - 1]][t[j]] != 0) ==>
              Expected(t, n, m, n) == MissingEdge(t[k - 1], t[k])
  {
    var w := t[..n];
    assert w[k - 1] == t[k - 1] && w[k] == t[k];
    if forall j :: 1 <= j < k ==> m[t[j - 1]][t[j]] != 0 {
      WalkStopsAtFirstMissingEdge(w, m, n, k);
    }
  }

  /** A tour that repeats a node is rejected: at a missing edge, or because a node goes unvisited. */
  lemma RepeatRejected(t: seq<int>, m: Matrix, n: int, i: nat, j: nat)
    requires n > 0 && Walkable(t, m, n)
    requires i < j < n && t[i] == t[j]
    ensures Expected(t, n, m, n).MissingEdge? || Expected(t, n, m, n).NotAllVisited?
  {
    var w := t[..n];
    assert w[i] == w[j];
    NodesCount(w);
  }

  /** A tour whose first and last nodes are not adjacent is rejected, even when every step has an edge. */
  lemma OpenPathRejected(t: seq<int>, m: Matrix, n: int)
    requires n > 0 && Walkable(t, m, n)
    requires m[t[0]][t[n - 1]] == 0
    ensures Expected(t, n, m, n) != Valid
    ensures (forall k :: 1 <= k < n ==> m[t[k - 1]][t[k]] != 0) && Distinct(t[..n]) ==>
              Expected(t, n, m, n) == NotClosed(t[0], t[n - 1])
  {
    NodesCount(t[..n]);
  }

  /**
   * In a complete graph on 1..n (every two distinct nodes adjacent, n >= 2)
   * every ordering of the n nodes is accepted.
   */
  lemma CompleteGraphAccepts(t: seq<int>, m: Matrix, n: int)
    requires n >= 2 && Walkable(t, m, n)
    requires forall i :: 0 <= i < n ==> 1 <= t[i] <= n
    requires Distinct(t[..n])
    requires forall a, b :: 1 <= a <= n && 1 <= b <= n && a != b ==> m[a][b] != 0
    ensures Expected(t, n, m, n) == Valid
  {
    var w := t[..n];
    NodesCount(w);
    assert w[0] != w[n - 1];
    forall k | 1 <= k < n ensures m[w[k - 1]][w[k]] != 0 {
      assert w[k - 1] != w[k];
    }
  }

  /** With a single node the tour is accepted exactly when that node has a self-loop. */
  lemma SingleNodeNeedsSelfLoop(t: seq<int>, m: Matrix)
    requires Walkable(t, m, 1)
    ensures Expected(t, 1, m, 1) == Valid <==> m[t[0]][t[0]] != 0
  {
    assert t[..1] == [t[0]];
    assert Nodes([t[0]]) == {t[0]};
  }

  /** Marks node v as visited; the visited count grows only for a node not seen before. */
  method Visit(visited: array<int>, count: nat, v: int, ghost walked: seq<int>) returns (count': nat)
    requires 0 <= v < visited.Length
    requires Marks(visited, Nodes(walked)) && count == |Nodes(walked)|
    modifies visited
    ensures Marks(visited, Nodes(walked + [v])) && count' == |Nodes(walked + [v])|
  {
    ghost var seen := Nodes(walked);
    NodesSnoc(walked, v);
    count' := count;
    if visited[v] == 0 {
      assert v !in seen;
      assert |seen + {v}| == |seen| + 1;
      visited[v] := 1;
      count' := count + 1;
    } else {
      assert seen + {v} == seen;
    }
  }

  /** A fresh marks array of the given length, every node unvisited. */
  method NoneVisited(length: nat) returns (visited: array<int>)
    ensures fresh(visited) && visited.Length == length
    ensures Marks(visited, {})
  {
    visited := new int[length];
    for i := 0 to length
      invariant forall k :: 0 <= k < i ==> visited[k] == 0
    {
      visited[i] := 0;
    }
  }

  /**
   * The walk of `hc_validate` along the first n tour entries: each step
   * after the first needs an edge from the previous node, and every node
   * reached is marked in a zeroed array of n+1 flags.  The walk stops at
   * the first missing edge; `count` is the number of distinct nodes marked.
   */
  method Walk(tour: array<int>, graph: array2<int>, n: int) returns (r: Outcome, count: nat, pos: nat)
    requires n > 0 ==> Fits(tour, graph, n)
    ensures pos <= (if n < 0 then 0 else n)
    ensures forall k :: 1 <= k < pos ==> graph[tour[k - 1], tour[k]] != 0
    ensures r == Valid ==> pos == (if n < 0 then 0 else n) && count == |Nodes(tour[..pos])|
    ensures r != Valid ==> 1 <= pos < n && graph[tour[pos - 1], tour[pos]] == 0 &&
                           r == MissingEdge(tour[pos - 1], tour[pos])
  {
    var visited := NoneVisited(if n < 0 then 0 else n + 1);

    r := Valid;
    var previous := -1;
    count := 0;
    pos := 0;
    while pos < n
      invariant pos <= (if n < 0 then 0 else n)
      invariant previous == if pos == 0 then -1 else tour[pos - 1]
      invariant forall k :: 1 <= k < pos ==> graph[tour[k - 1], tour[k]] != 0
      invariant Marks(visited, Nodes(tour[..pos])) && count == |Nodes(tour[..pos])|
    {
      var current := tour[pos];
      if previous != -1 {
        if graph[previous, current] == 0 {
          r := MissingEdge(previous, current);
          return;
        }
      }
      count := Visit(visited, count, current, tour[..pos]);
      assert tour[..pos + 1] == tour[..pos] + [current];
      previous := current;
      pos := pos + 1;
    }
  }

  /**
   * `hc_validate`: the outcome of the checks taken in the source's order.
   * The verdict is `Valid` exactly for Hamiltonian cycles when the matrix
   * has an empty row and column 0 (`ValidIffHamiltonian`).
   */
  method Validate(tour: array<int>, tourNodeCount: int, graph: array2<int>, nodeCount: int)
    returns (r: Outcome)
    requires tourNodeCount == nodeCount && nodeCount > 0 ==> Fits(tour, graph, nodeCount)
    ensures tourNodeCount == nodeCount && nodeCount > 0 ==> Walkable(tour[..], Rows(graph), nodeCount)
    ensures r == Expected(tour[..], tourNodeCount, Rows(graph), nodeCount)
  {
    if tourNodeCount != nodeCount {
      return SizeMismatch;
    }
    if nodeCount == 0 {
      return EmptyGraph;
    }
    var n := nodeCount;
    var count, pos;
    r, count, pos := Walk(tour, graph, n);
    if r == Valid && count != n {
      r := NotAllVisited(count, n);
    }
    if r == Valid {
      if graph[tour[0], tour[n - 1]] == 0 {
        r := NotClosed(tour[0], tour[n - 1]);
      }
    }

    if n > 0 {
      ghost var t, m := tour[..], Rows(graph);
      assert forall k :: 1 <= k < pos ==> m[t[k - 1]][t[k]] != 0;
      assert pos < n ==> m[t[pos - 1]][t[pos]] == 0;
      assert m[t[0]][t[n - 1]] == graph[tour[0], tour[n - 1]];
      assert pos == n ==> count == |Nodes(t[..n])| by {
        assert pos == n ==> tour[..pos] == t[..n];
      }
      ExpectedAfterWalk(t, m, n, pos);
    }
  }
}
