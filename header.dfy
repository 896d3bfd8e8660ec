/**
 * The header scan that `read_graph` and `read_tour` share: lines are read
 * until one begins with the section marker; before that, a line whose
 * first token (split at blanks and colons) is `DIMENSION` sets the node
 * count to the `atoi` of its second token.  The node count starts at 0 and
 * the last `DIMENSION` line wins.
 */
module Header {
  import opened Text

  /** `header_delim` in both readers: the characters ' ' and ':'. */
  const HeaderDelims: set<char> := {' ', ':'}

  function Fields(line: string): seq<string> {
    Tokens(line, HeaderDelims)
  }

  predicate IsDimensionLine(line: string) {
    var f := Fields(line);
    |f| >= 1 && f[0] == "DIMENSION"
  }

  /**
   * A `DIMENSION` line with no second token: the source then hands a null
   * pointer to `atoi`, which is undefined behaviour.
   */
  predicate ValueMissing(line: string) {
    IsDimensionLine(line) && |Fields(line)| < 2
  }

  function DimensionValue(line: string): int
    requires IsDimensionLine(line) && !ValueMissing(line)
  {
    Atoi(Fields(line)[1])
  }

  /** The index of the first line that begins with the marker, or |lines| when none does. */
  function HeaderEnd(lines: seq<string>, marker: string): (h: nat)
    ensures h <= |lines|
    ensures forall i :: 0 <= i < h ==> !StartsWith(lines[i], marker)
    ensures h < |lines| ==> StartsWith(lines[h], marker)
  {
    if lines == [] then 0
    else if StartsWith(lines[0], marker) then 0
    else 1 + HeaderEnd(lines[1..], marker)
  }

  /** The lines after the marker line; none when the marker never appears. */
  function Body(lines: seq<string>, marker: string): seq<string>
  {
    var h := HeaderEnd(lines, marker);
    if h < |lines| then lines[h + 1..] else []
  }

  /** No header line leaves `atoi` without an argument. */
  predicate WellFormed(lines: seq<string>, marker: string) {
    forall i :: 0 <= i < HeaderEnd(lines, marker) ==> !ValueMissing(lines[i])
  }

  predicate NoneMissing(hdr: seq<string>) {
    forall i :: 0 <= i < |hdr| ==> !ValueMissing(hdr[i])
  }

  /** The node count after reading the header lines `hdr`: the value of the last `DIMENSION` line, else 0. */
  function Dimension(hdr: seq<string>): int
    requires NoneMissing(hdr)
  {
    if hdr == [] then 0
    else
      var last := hdr[|hdr| - 1];
      if IsDimensionLine(last) then DimensionValue(last) else Dimension(hdr[..|hdr| - 1])
  }

  /** The node count the header of `lines` declares. */
  function DeclaredDimension(lines: seq<string>, marker: string): int
    requires WellFormed(lines, marker)
  {
    var h := HeaderEnd(lines, marker);
    assert NoneMissing(lines[..h]);
    Dimension(lines[..h])
  }

  /** Without any `DIMENSION` line the node count stays 0. */
  lemma {:induction false} DimensionDefault(hdr: seq<string>)
    requires forall i :: 0 <= i < |hdr| ==> !IsDimensionLine(hdr[i])
    ensures Dimension(hdr) == 0
  {
    if hdr != [] {
      DimensionDefault(hdr[..|hdr| - 1]);
    }
  }

  /** The last `DIMENSION` line overrides every earlier one. */
  lemma {:induction false} DimensionLastWins(hdr: seq<string>, k: nat)
    requires NoneMissing(hdr)
    requires k < |hdr| && IsDimensionLine(hdr[k])
    requires forall i :: k < i < |hdr| ==> !IsDimensionLine(hdr[i])
    ensures Dimension(hdr) == DimensionValue(hdr[k])
  {
    if k < |hdr| - 1 {
      DimensionLastWins(hdr[..|hdr| - 1], k);
    }
  }

  /**
   * The header loop of both readers: returns the node count and the index
   * of the first line after the marker (|lines| when there is no marker).
   */
  method ScanHeader(lines: seq<string>, marker: string) returns (nodeCount: int, next: nat)
    requires WellFormed(lines, marker)
    ensures nodeCount == DeclaredDimension(lines, marker)
    ensures next <= |lines| && lines[next..] == Body(lines, marker)
    ensures next == |lines| || StartsWith(lines[next - 1], marker)
  {
    nodeCount := 0;
    var i := 0;
    while i < |lines|
      invariant i <= HeaderEnd(lines, marker)
      invariant NoneMissing(lines[..i])
      invariant nodeCount == Dimension(lines[..i])
    {
      if StartsWith(lines[i], marker) {
        return nodeCount, i + 1;
      }
      if IsDimensionLine(lines[i]) {
        nodeCount := DimensionValue(lines[i]);
      }
      assert lines[..i + 1][..i] == lines[..i];
      i := i + 1;
    }
    assert lines[..i] == lines;
    next := i;
  }
}
