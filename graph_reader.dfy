/**
 * `read_graph`: the header gives the node count n; an all-zero
 * (n+1)×(n+1) matrix is allocated (row and column 0 unused, nodes are
 * 1..n); each edge line `u v` with u > 0 and v > 0 sets both `[u,v]` and
 * `[v,u]` to 1 and counts one edge; a line whose first number is -1 ends
 * the edge section.
 */
module GraphReader {
  import opened Text
  import opened Header

  const EdgeMarker := "EDGE_DATA_SECTION"

  /** `edge_delim`: a single blank. */
  const EdgeDelims: set<char> := {' '}

  /** The pair (u, v) read from an edge line; a missing token reads as 0. */
  function EdgeFields(line: string): (int, int)
  {
    var t := Tokens(line, EdgeDelims);
    (if |t| >= 1 then Atoi(t[0]) else 0, if |t| >= 2 then Atoi(t[1]) else 0)
  }

  /** The edge line `u v` as a graph file writes it. */
  function EdgeLine(u: int, v: int): string {
    ShowInt(u) + " " + ShowInt(v) + "\n"
  }

  /** An edge line written in decimal is read back as the pair it names. */
  lemma EdgeLineFields(u: int, v: int)
    ensures EdgeFields(EdgeLine(u, v)) == (u, v)
  {
    var a, b := ShowInt(u), ShowInt(v) + "\n";
    ShowIntWord(u, ' ');
    ShowIntWord(v, ' ');
    assert ' ' !in b;
    assert EdgeLine(u, v) == Join([a, b], ' ');
    TokensOfJoin([a, b], ' ', EdgeDelims);
    AtoiShowInt(u, []);
    assert a + [] == a;
    AtoiShowInt(v, "\n");
  }

  /** The pairs of the lines of a section, line by line. */
  function LinePairs(section: seq<string>): (ps: seq<(int, int)>)
    ensures |ps| == |section|
  {
    if section == [] then [] else [EdgeFields(section[0])] + LinePairs(section[1..])
  }

  lemma {:induction false} LinePairsAt(section: seq<string>, i: nat)
    requires i < |section|
    ensures LinePairs(section)[i] == EdgeFields(section[i])
  {
    if i > 0 {
      LinePairsAt(section[1..], i - 1);
    }
  }

  /** The numbers (u, v) of line i, read with `strtok` and `atoi` as the edge loop does. */
  method ReadPair(section: seq<string>, i: nat) returns (u: int, v: int)
    requires i < |section|
    ensures (u, v) == LinePairs(section)[i]
  {
    var tokens := Tokens(section[i], EdgeDelims);
    u, v := 0, 0;
    if |tokens| >= 1 {
      u := Atoi(tokens[0]);
    }
    if |tokens| >= 2 {
      v := Atoi(tokens[1]);
    }
    LinePairsAt(section, i);
  }

  /** A line whose first number is -1 ends the section. */
  predicate IsSentinel(p: (int, int)) {
    p.0 == -1
  }

  /** The line names an edge the reader records. */
  predicate Records(p: (int, int)) {
    p.0 > 0 && p.1 > 0
  }

  /** The index of the first sentinel at or after k, or |ps| when there is none. */
  function EndFrom(ps: seq<(int, int)>, k: nat): (e: nat)
    requires k <= |ps|
    ensures k <= e <= |ps|
    ensures forall j :: k <= j < e ==> !IsSentinel(ps[j])
    ensures e < |ps| ==> IsSentinel(ps[e])
    decreases |ps| - k
  {
    if k == |ps| || IsSentinel(ps[k]) then k else EndFrom(ps, k + 1)
  }

  /** The length of the section proper: the lines before the first sentinel. */
  function End(ps: seq<(int, int)>): nat {
    EndFrom(ps, 0)
  }

  /** The edges recorded from the first i lines, in order, one per recorded line. */
  function EdgesUpTo(ps: seq<(int, int)>, i: nat): (es: seq<(int, int)>)
    requires i <= |ps|
    ensures |es| <= i
  {
    if i == 0 then []
    else EdgesUpTo(ps, i - 1) + (if Records(ps[i - 1]) then [ps[i - 1]] else [])
  }

  /**
   * The edges the edge loop records from the pairs of a section, in order,
   * one per recorded line (duplicates and self-loops included), up to the
   * first sentinel.
   */
  function Edges(ps: seq<(int, int)>): seq<(int, int)> {
    EdgesUpTo(ps, End(ps))
  }

  /** Only pairs of positive numbers are recorded, so node 0 never gets an edge. */
  lemma {:induction false} EdgesPositive(ps: seq<(int, int)>, i: nat)
    requires i <= |ps|
    ensures forall e :: e in EdgesUpTo(ps, i) ==> e.0 > 0 && e.1 > 0
  {
    if i > 0 {
      EdgesPositive(ps, i - 1);
    }
  }

  /** Edges recorded early stay recorded: the list only grows. */
  lemma {:induction false} EdgesGrow(ps: seq<(int, int)>, i: nat, j: nat)
    requires i <= j <= |ps|
    ensures forall e :: e in EdgesUpTo(ps, i) ==> e in EdgesUpTo(ps, j)
    decreases j
  {
    if i < j {
      EdgesGrow(ps, i, j - 1);
    }
  }

  /** Only the lines read so far matter: extending the input changes none of the edges already recorded. */
  lemma {:induction false} EdgesUpToAppend(ps: seq<(int, int)>, rest: seq<(int, int)>, i: nat)
    requires i <= |ps|
    ensures EdgesUpTo(ps + rest, i) == EdgesUpTo(ps, i)
  {
    if i > 0 {
      EdgesUpToAppend(ps, rest, i - 1);
    }
  }

  /** The first sentinel stays first whatever follows it. */
  lemma {:induction false} EndFromAppend(ps: seq<(int, int)>, rest: seq<(int, int)>, k: nat)
    requires k <= End(ps) < |ps|
    requires forall j :: 0 <= j < k ==> !IsSentinel(ps[j])
    ensures EndFrom(ps + rest, k) == EndFrom(ps, k)
    decreases |ps| - k
  {
    if !IsSentinel(ps[k]) {
      EndFromAppend(ps, rest, k + 1);
    }
  }

  /** A sentinel ends the section: nothing after it is read, on any later line. */
  lemma SentinelEndsSection(ps: seq<(int, int)>, rest: seq<(int, int)>)
    requires exists j :: 0 <= j < |ps| && IsSentinel(ps[j])
    ensures Edges(ps + rest) == Edges(ps)
  {
    var j :| 0 <= j < |ps| && IsSentinel(ps[j]);
    assert End(ps) < |ps|;
    EndFromAppend(ps, rest, 0);
    EdgesUpToAppend(ps, rest, End(ps));
  }

  /** A section of edge pairs without sentinel gives back exactly its pairs. */
  lemma {:induction false} AllRecorded(ps: seq<(int, int)>, i: nat)
    requires i <= |ps|
    requires forall k :: 0 <= k < |ps| ==> Records(ps[k])
    ensures EdgesUpTo(ps, i) == ps[..i]
  {
    if i > 0 {
      AllRecorded(ps, i - 1);
      assert ps[..i] == ps[..i - 1] + [ps[i - 1]];
    }
  }

  /** An undirected edge between a and b has been recorded. */
  predicate Linked(es: seq<(int, int)>, a: int, b: int) {
    (a, b) in es || (b, a) in es
  }

  /** The matrix side the source allocates for n nodes (none for a negative count). */
  function Side(n: int): nat {
    if n < 0 then 0 else n + 1
  }

  /** The node count read from a graph description. */
  function GraphDimension(lines: seq<string>): int
    requires WellFormed(lines, EdgeMarker)
  {
    DeclaredDimension(lines, EdgeMarker)
  }

  function GraphEdges(lines: seq<string>): seq<(int, int)> {
    Edges(LinePairs(Body(lines, EdgeMarker)))
  }

  /** Every recorded endpoint is a node of the graph: the source writes the matrix unchecked. */
  predicate EdgesFit(lines: seq<string>)
    requires WellFormed(lines, EdgeMarker)
  {
    forall e :: e in GraphEdges(lines) ==> e.0 <= GraphDimension(lines) && e.1 <= GraphDimension(lines)
  }

  /** The all-zero square matrix of the given side, filled cell by cell. */
  method ZeroMatrix(side: nat) returns (graph: array2<int>)
    ensures fresh(graph)
    ensures graph.Length0 == side && graph.Length1 == side
    ensures forall a, b :: 0 <= a < side && 0 <= b < side ==> graph[a, b] == 0
  {
    graph := new int[side, side];
    var i := 0;
    while i < side
      invariant i <= side
      invariant forall a, b :: 0 <= a < i && 0 <= b < side ==> graph[a, b] == 0
    {
      var j := 0;
      while j < side
        invariant j <= side
        invariant forall a, b :: 0 <= a < i && 0 <= b < side ==> graph[a, b] == 0
        invariant forall b :: 0 <= b < j ==> graph[i, b] == 0
      {
        graph[i, j] := 0;
        j := j + 1;
      }
      i := i + 1;
    }
  }

  /** The matrix holds 1 exactly where `es` links the two nodes, and 0 elsewhere. */
  ghost predicate Represents(graph: array2<int>, es: seq<(int, int)>)
    reads graph
  {
    forall a, b :: 0 <= a < graph.Length0 && 0 <= b < graph.Length1 ==>
      graph[a, b] == if Linked(es, a, b) then 1 else 0
  }

  /** Records the undirected edge (u, v): both cells become 1. */
  method Connect(graph: array2<int>, u: int, v: int, ghost es: seq<(int, int)>)
    requires 0 < u < graph.Length0 && 0 < v < graph.Length0 && graph.Length1 == graph.Length0
    requires Represents(graph, es)
    modifies graph
    ensures Represents(graph, es + [(u, v)])
  {
    graph[u, v] := 1;
    graph[v, u] := 1;
    forall a, b | 0 <= a < graph.Length0 && 0 <= b < graph.Length1
      ensures graph[a, b] == if Linked(es + [(u, v)], a, b) then 1 else 0
    {
      assert (a, b) in es + [(u, v)] <==> (a, b) in es || (a, b) == (u, v);
      assert (b, a) in es + [(u, v)] <==> (b, a) in es || (b, a) == (u, v);
    }
  }

  /**
   * The edge loop of `read_graph`: records the edges of `section` into an
   * all-zero matrix and counts them.
   */
  method ReadEdges(graph: array2<int>, section: seq<string>) returns (edgeCount: nat)
    requires graph.Length1 == graph.Length0
    requires Represents(graph, [])
    requires forall e :: e in Edges(LinePairs(section)) ==> e.0 < graph.Length0 && e.1 < graph.Length0
    modifies graph
    ensures edgeCount == |Edges(LinePairs(section))|
    ensures Represents(graph, Edges(LinePairs(section)))
  {
    ghost var ps := LinePairs(section);
    edgeCount := 0;
    var i := 0;
    while i < |section|
      invariant i <= End(ps)
      invariant edgeCount == |EdgesUpTo(ps, i)|
      invariant Represents(graph, EdgesUpTo(ps, i))
    {
      var u, v := ReadPair(section, i);
      if u == -1 {
        break;
      }
      if u > 0 && v > 0 {
        assert (u, v) in Edges(ps) by {
          assert (u, v) in EdgesUpTo(ps, i + 1);
          EdgesGrow(ps, i + 1, End(ps));
        }
        Connect(graph, u, v, EdgesUpTo(ps, i));
        edgeCount := edgeCount + 1;
      }
      i := i + 1;
    }
  }

  /**
   * `read_graph` on the lines of a graph description.  The matrix holds 1
   * exactly where an edge was recorded in either direction, and the edge
   * count is the number of recorded lines.
   */
  method ReadGraph(lines: seq<string>) returns (graph: array2<int>, nodeCount: int, edgeCount: nat)
    requires WellFormed(lines, EdgeMarker)
    requires EdgesFit(lines)
    ensures nodeCount == GraphDimension(lines)
    ensures fresh(graph)
    ensures graph.Length0 == Side(nodeCount) && graph.Length1 == Side(nodeCount)
    ensures edgeCount == |GraphEdges(lines)|
    ensures Represents(graph, GraphEdges(lines))
    ensures forall a, b :: 0 <= a < graph.Length0 && 0 <= b < graph.Length1 ==>
              graph[a, b] == graph[b, a] && (graph[a, b] == 0 || graph[a, b] == 1)
    ensures forall a :: 0 <= a < graph.Length0 ==> graph[0, a] == 0 && graph[a, 0] == 0
  {
    var next;
    nodeCount, next := ScanHeader(lines, EdgeMarker);
    graph := ZeroMatrix(Side(nodeCount));
    edgeCount := ReadEdges(graph, lines[next..]);
    EdgesPositive(LinePairs(lines[next..]), End(LinePairs(lines[next..])));
  }
}
