/**
 * `read_tour`: the header gives the node count n and a tour buffer of n
 * zeros is allocated; after the `TOUR_SECTION` line the blank-separated
 * tokens of all later lines form one stream, read until a token equal to
 * -1.  A token in 1..n is written at the next position; any other token
 * is skipped (and reported on stderr).
 */
module TourReader {
  import opened Text
  import opened Header

  const TourMarker := "TOUR_SECTION"

  /** `node_delim`: a single blank. */
  const NodeDelims: set<char> := {' '}

  /** The numbers one line contributes to the stream. */
  function LineValues(line: string): seq<int>
  {
    var t := Tokens(line, NodeDelims);
    seq(|t|, k requires 0 <= k < |t| => Atoi(t[k]))
  }

  /** A tour line as a tour file writes it: the numbers in decimal, separated by blanks. */
  function TourLine(xs: seq<int>): string {
    Join(seq(|xs|, i requires 0 <= i < |xs| => ShowInt(xs[i])), ' ')
  }

  /** A tour line written in decimal is read back as the numbers it lists. */
  lemma TourLineValues(xs: seq<int>)
    ensures LineValues(TourLine(xs)) == xs
  {
    var ws := seq(|xs|, i requires 0 <= i < |xs| => ShowInt(xs[i]));
    forall k | 0 <= k < |ws| ensures ws[k] != [] && forall c :: c in ws[k] ==> c !in NodeDelims {
      ShowIntWord(xs[k], ' ');
    }
    TokensOfJoin(ws, ' ', NodeDelims);
    forall k | 0 <= k < |xs| ensures LineValues(TourLine(xs))[k] == xs[k] {
      AtoiShowInt(xs[k], []);
      assert ws[k] + [] == ws[k];
    }
  }

  /** The token stream of a run of lines, line after line. */
  function Values(lines: seq<string>): seq<int>
  {
    if lines == [] then [] else LineValues(lines[0]) + Values(lines[1..])
  }

  /** The stream up to (not including) the first -1. */
  function UntilSentinel(xs: seq<int>): (r: seq<int>)
    ensures -1 !in r
    ensures |r| <= |xs| && r == xs[..|r|]
    ensures |r| == |xs| || xs[|r|] == -1
  {
    if xs == [] || xs[0] == -1 then [] else [xs[0]] + UntilSentinel(xs[1..])
  }

  /** The values in 1..n, in stream order. */
  function Accepted(xs: seq<int>, n: int): (r: seq<int>)
    ensures |r| <= |xs|
    ensures forall k :: 0 <= k < |r| ==> 1 <= r[k] <= n
  {
    if xs == [] then []
    else (if 1 <= xs[0] <= n then [xs[0]] else []) + Accepted(xs[1..], n)
  }

  /** The node count read from a tour description. */
  function TourDimension(lines: seq<string>): int
    requires WellFormed(lines, TourMarker)
  {
    DeclaredDimension(lines, TourMarker)
  }

  /** The nodes `read_tour` stores, in order. */
  function TourNodes(lines: seq<string>): (r: seq<int>)
    requires WellFormed(lines, TourMarker)
    ensures forall k :: 0 <= k < |r| ==> 1 <= r[k] <= TourDimension(lines)
    ensures |r| <= |Values(Body(lines, TourMarker))|
  {
    Accepted(UntilSentinel(Values(Body(lines, TourMarker))), TourDimension(lines))
  }

  /** The buffer length the source allocates for n nodes (none for a negative count). */
  function Capacity(n: int): nat {
    if n < 0 then 0 else n
  }

  /** A prefix free of -1 passes through unchanged; the stream is cut at the first -1 after it. */
  lemma {:induction false} UntilSentinelAppend(a: seq<int>, b: seq<int>)
    requires -1 !in a
    ensures UntilSentinel(a + b) == a + UntilSentinel(b)
  {
    if a != [] {
      assert (a + b)[1..] == a[1..] + b;
      UntilSentinelAppend(a[1..], b);
    } else {
      assert a + b == b;
    }
  }

  /** A -1 token ends the stream: whatever follows it, on its line or later lines, is never read. */
  lemma SentinelEndsStream(a: seq<int>, rest: seq<int>)
    requires -1 !in a
    ensures UntilSentinel(a + [-1] + rest) == a
  {
    assert a + [-1] + rest == a + ([-1] + rest);
    UntilSentinelAppend(a, [-1] + rest);
  }

  /** Filtering distributes over concatenation: acceptance looks at each token alone, in order. */
  lemma {:induction false} AcceptedAppend(a: seq<int>, b: seq<int>, n: int)
    ensures Accepted(a + b, n) == Accepted(a, n) + Accepted(b, n)
  {
    if a != [] {
      assert (a + b)[1..] == a[1..] + b;
      AcceptedAppend(a[1..], b, n);
    } else {
      assert a + b == b;
    }
  }

  /** A token is accepted exactly when it lies in 1..n. */
  lemma {:induction false} AcceptedMembers(xs: seq<int>, n: int, x: int)
    ensures x in Accepted(xs, n) <==> x in xs && 1 <= x <= n
  {
    if xs != [] {
      AcceptedMembers(xs[1..], n, x);
      assert xs == [xs[0]] + xs[1..];
    }
  }

  /**
   * `read_tour` on the lines of a tour description.  The first `found`
   * slots hold the accepted nodes in input order, the rest stay 0.
   * `found` is the count the source compares with n for its diagnostic.
   */
  method ReadTour(lines: seq<string>) returns (tour: array<int>, nodeCount: int, found: nat)
    requires WellFormed(lines, TourMarker)
    requires |TourNodes(lines)| <= Capacity(TourDimension(lines))
    ensures nodeCount == TourDimension(lines)
    ensures fresh(tour) && tour.Length == Capacity(nodeCount)
    ensures found == |TourNodes(lines)|
    ensures tour[..found] == TourNodes(lines)
    ensures forall k :: found <= k < tour.Length ==> tour[k] == 0
  {
    var next;
    nodeCount, next := ScanHeader(lines, TourMarker);
    tour := new int[Capacity(nodeCount)];
    for k := 0 to tour.Length
      invariant forall j :: 0 <= j < k ==> tour[j] == 0
    {
      tour[k] := 0;
    }
    found := ReadNodes(tour, nodeCount, lines[next..]);
  }

  /** Reading one more number appends it to the stored nodes exactly when it lies in 1..n. */
  lemma AcceptOne(xs: seq<int>, x: int, n: int)
    ensures Accepted(xs + [x], n) == Accepted(xs, n) + (if 1 <= x <= n then [x] else [])
  {
    AcceptedAppend(xs, [x], n);
    assert [x][1..] == [];
  }

  /** Nodes stored from a -1-free prefix of the stream are never more than those stored from the whole stream. */
  lemma BoundedPrefix(a: seq<int>, b: seq<int>, n: int)
    requires -1 !in a
    ensures |Accepted(a, n)| <= |Accepted(UntilSentinel(a + b), n)|
  {
    UntilSentinelAppend(a, b);
    AcceptedAppend(a, UntilSentinel(b), n);
  }

  /** The stream split around the token at position j of a line. */
  lemma Regroup(read: seq<int>, line: seq<int>, j: nat, later: seq<int>)
    requires j < |line|
    ensures line[..j + 1] == line[..j] + [line[j]]
    ensures read + line + later == (read + line[..j]) + ([line[j]] + (line[j + 1..] + later))
    ensures read + line + later == (read + line[..j + 1]) + (line[j + 1..] + later)
  {
    assert line == line[..j] + [line[j]] + line[j + 1..];
  }

  /** The buffer holds `stored` at its front and zeros after it. */
  ghost predicate Holds(tour: array<int>, stored: seq<int>)
    reads tour
  {
    |stored| <= tour.Length && tour[..|stored|] == stored &&
    forall k :: |stored| <= k < tour.Length ==> tour[k] == 0
  }

  /** Writes a node at the write position of a buffer holding `stored` followed by zeros. */
  method Store(tour: array<int>, pos: nat, node: int, ghost stored: seq<int>)
    requires pos == |stored| < tour.Length && Holds(tour, stored)
    modifies tour
    ensures Holds(tour, stored + [node])
  {
    tour[pos] := node;
    assert tour[..pos + 1] == tour[..pos] + [node];
  }

  /**
   * The token loop of `read_tour` over one line.  `read` holds the numbers
   * read so far (none of them -1) and `later` those of the lines after this
   * one; `ended` reports a -1 on this line.
   */
  method ReadLine(tour: array<int>, n: int, text: string, pos: nat, ghost read: seq<int>, ghost later: seq<int>)
    returns (pos': nat, ended: bool, ghost read': seq<int>)
    requires -1 !in read
    requires pos == |Accepted(read, n)| && Holds(tour, Accepted(read, n))
    requires |Accepted(UntilSentinel(read + LineValues(text) + later), n)| <= tour.Length
    modifies tour
    ensures -1 !in read'
    ensures pos' == |Accepted(read', n)| && Holds(tour, Accepted(read', n))
    ensures !ended ==> read' == read + LineValues(text)
    ensures ended ==> UntilSentinel(read + LineValues(text) + later) == read'
  {
    var tokens := Tokens(text, NodeDelims);
    ghost var line := LineValues(text);
    pos', ended, read' := pos, false, read;
    var j := 0;
    assert read + line[..j] == read;
    while j < |tokens|
      invariant j <= |tokens|
      invariant read' == read + line[..j]
      invariant -1 !in read'
      invariant pos' == |Accepted(read', n)| && Holds(tour, Accepted(read', n))
    {
      var node := Atoi(tokens[j]);
      assert line[j] == node;
      Regroup(read, line, j, later);
      if node == -1 {
        UntilSentinelAppend(read', [-1] + (line[j + 1..] + later));
        return pos', true, read';
      }
      assert read' + [node] == read + line[..j + 1];
      BoundedPrefix(read' + [node], line[j + 1..] + later, n);
      AcceptOne(read', node, n);
      if 1 <= node <= n {
        Store(tour, pos', node, Accepted(read', n));
        pos' := pos' + 1;
      }
      read' := read' + [node];
      j := j + 1;
    }
    assert line[..j] == line;
  }

  /** The stream of the lines from i on: line i's numbers, then those of the later lines. */
  lemma ValuesFrom(section: seq<string>, i: nat)
    requires i < |section|
    ensures Values(section[i..]) == LineValues(section[i]) + Values(section[i + 1..])
  {
    assert section[i..][1..] == section[i + 1..];
  }

  /** Line i of the section through the token loop, stated against the stream of the whole section. */
  method ReadLineAt(tour: array<int>, n: int, section: seq<string>, i: nat, pos: nat, ghost consumed: seq<int>)
    returns (pos': nat, ended: bool, ghost consumed': seq<int>)
    requires i < |section|
    requires -1 !in consumed && Values(section) == consumed + Values(section[i..])
    requires pos == |Accepted(consumed, n)| && Holds(tour, Accepted(consumed, n))
    requires |Accepted(UntilSentinel(Values(section)), n)| <= tour.Length
    modifies tour
    ensures -1 !in consumed'
    ensures pos' == |Accepted(consumed', n)| && Holds(tour, Accepted(consumed', n))
    ensures !ended ==> Values(section) == consumed' + Values(section[i + 1..])
    ensures ended ==> UntilSentinel(Values(section)) == consumed'
  {
    ghost var later := Values(section[i + 1..]);
    assert Values(section) == consumed + LineValues(section[i]) + later by {
      ValuesFrom(section, i);
    }
    pos', ended, consumed' := ReadLine(tour, n, section[i], pos, consumed, later);
  }

  /**
   * The line loop of `read_tour`: writes the accepted tokens of `section`
   * at an advancing position into a zeroed buffer, up to the first -1.
   */
  method ReadNodes(tour: array<int>, n: int, section: seq<string>) returns (pos: nat)
    requires Holds(tour, [])
    requires |Accepted(UntilSentinel(Values(section)), n)| <= tour.Length
    modifies tour
    ensures pos == |Accepted(UntilSentinel(Values(section)), n)|
    ensures Holds(tour, Accepted(UntilSentinel(Values(section)), n))
  {
    ghost var consumed: seq<int> := [];
    pos := 0;
    var i := 0;
    assert Values(section) == consumed + Values(section[i..]) by {
      assert section[i..] == section;
    }
    while i < |section|
      invariant i <= |section|
      invariant -1 !in consumed
      invariant Values(section) == consumed + Values(section[i..])
      invariant pos == |Accepted(consumed, n)| && Holds(tour, Accepted(consumed, n))
    {
      var ended;
      pos, ended, consumed := ReadLineAt(tour, n, section, i, pos, consumed);
      if ended {
        return;
      }
      i := i + 1;
    }
    assert UntilSentinel(Values(section)) == consumed by {
      assert section[i..] == [];
      assert Values(section) == consumed + [];
      UntilSentinelAppend(consumed, []);
    }
  }
}
