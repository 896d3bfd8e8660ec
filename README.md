# Hamiltonian-cycle validator, modelled in Dafny

A model of the three routines in `validator/hclib.c`:

- `read_graph` reads a TSPLIB-style graph description. A header declares
  `DIMENSION` (the node count n). After the line beginning with
  `EDGE_DATA_SECTION`, each `u v` line is an undirected edge. The routine
  builds an (n+1)×(n+1) 0/1 adjacency matrix whose row and column 0 are
  unused. It also counts the recorded edges.
- `read_tour` reads a tour description. It uses the same header scan,
  with `TOUR_SECTION` as the marker. It then reads a stream of node
  numbers that may span lines and ends at `-1`. Nodes in 1..n are written
  in order into a zero-filled buffer of length n.
- `hc_validate` decides whether the tour is a Hamiltonian cycle of the
  graph. The checks run in order and stop at the first failure:
  1. the node counts are equal;
  2. the graph is not empty;
  3. a walk along the tour checks each step's edge and marks the visited
     nodes;
  4. every node was visited;
  5. the first and last tour nodes are connected.

The input of each reader is the sequence of lines `fgets` returns. The C
library calls they rely on are modelled as total functions on strings:

- `strtok` as `Text.Tokens`: the maximal runs of non-delimiter characters.
- `atoi` as `Text.Atoi`: skip leading white space, take an optional sign,
  then the longest run of digits.

Each reader and the validator is an imperative Dafny method over `array`
and `array2`. Each is proved against a specification function of its
input:

- `GraphReader.Edges` / `Represents` for the graph reader;
- `TourReader.TourNodes` for the tour reader;
- `Validator.Expected` for the validator.

The lemmas next to these functions state what the source promises.
`hc_validate` returns an `Outcome`, which names the reason the source
prints in verbose mode. `Valid` stands for `true`; every other outcome
stands for `false`.

Modules:

- `Text` (text.dfy): `strtok`, `atoi` and their inverses.
- `Header` (header.dfy): the header scan shared by both readers.
- `GraphReader` (graph_reader.dfy): `read_graph`.
- `TourReader` (tour_reader.dfy): `read_tour`.
- `Validator` (validator.dfy): `hc_validate`.

The model follows the code in three details that a reader of the file
format might expect otherwise:

- A header ends at a line that *begins* with the marker, because the code
  uses `strncmp` (hclib.c:40, 150). A line that contains the marker later
  on does not end it.
- Edge and tour tokens are split at the blank character only, not at all
  white space (hclib.c:31, 141). A trailing `\n` therefore stays on the
  last token of a line, where `atoi` ignores it.
- The tokens of one line that reach the tour stream can also be
  out-of-range numbers, such as the `0` that `atoi` gives for a bare
  `"\n"`. The code skips them.

## Model

| member | source | states |
|---|---|---|
| Text.Tokens | validator/hclib.c:47-50 | every token `strtok` returns is non-empty and free of delimiters |
| Text.TokensOfJoin | validator/hclib.c:75-89 | splitting words joined by a delimiter gives back exactly those words, in order |
| Text.AtoiShowInt | validator/hclib.c:51 | `atoi` reads back any integer written in decimal and followed by a non-digit |
| Text.Atoi | validator/hclib.c:51 | `atoi` skips white space, takes an optional sign, then the longest run of digits; text without any digit reads as 0 |
| Header.HeaderEnd | validator/hclib.c:36-44 | the header ends at the first line that begins with the marker, or at the end of input when none does |
| Header.Dimension | validator/hclib.c:46-52 | the node count after a run of header lines is the `atoi` of the second token of the last line whose first token is `DIMENSION`, else 0 |
| Header.DimensionDefault | validator/hclib.c:24 | without a `DIMENSION` line, the node count stays 0 |
| Header.DimensionLastWins | validator/hclib.c:46-52 | the value of the last `DIMENSION` line overrides every earlier one |
| Header.ScanHeader | validator/hclib.c:36-53 | the header loop returns the declared node count and resumes reading just after the marker line (at the end when there is none) |
| GraphReader.EdgeLineFields | validator/hclib.c:73-90 | an edge line `u v` written in decimal is read back as the pair (u, v) |
| GraphReader.EdgeFields | validator/hclib.c:73-90 | an edge line gives the `atoi` of its first and second blank-separated tokens, 0 for a missing token |
| GraphReader.LinePairsAt | validator/hclib.c:73-90 | the pair read from line i is the `atoi` of its first and second blank-separated tokens, 0 for a missing one |
| GraphReader.EndFrom | validator/hclib.c:81-84 | the section proper ends at the first line whose first number is -1, or at the end of input |
| GraphReader.EdgesUpTo | validator/hclib.c:71-100 | the lines read so far record at most one edge each |
| GraphReader.EdgesPositive | validator/hclib.c:92-98 | every recorded edge has two positive endpoints, so node 0 never gets an edge |
| GraphReader.EdgesGrow | validator/hclib.c:92-98 | an edge once recorded stays recorded as more lines are read |
| GraphReader.EdgesUpToAppend | validator/hclib.c:71-100 | lines not yet read do not change the edges already recorded |
| GraphReader.SentinelEndsSection | validator/hclib.c:81-84 | after a line whose first number is -1, later lines record nothing |
| GraphReader.AllRecorded | validator/hclib.c:92-98 | a section of positive pairs without -1 records exactly its pairs, in order, repeats and self-loops included |
| GraphReader.ZeroMatrix | validator/hclib.c:59-68 | the nested loops yield an (n+1)-square matrix of zeros |
| GraphReader.Connect | validator/hclib.c:94-95 | setting both cells records the undirected edge; the matrix is 1 exactly where the extended edge list links two nodes |
| GraphReader.ReadEdges | validator/hclib.c:71-100 | the edge loop counts the recorded edges and leaves the matrix representing exactly them |
| GraphReader.ReadGraph | validator/hclib.c:20-106 | `read_graph` returns the declared node count, an (n+1)-square matrix holding 1 exactly where an edge was recorded in either direction, and the number of recorded edges; the matrix is symmetric, 0/1, and row and column 0 are zero |
| TourReader.TourLineValues | validator/hclib.c:177-198 | a tour line of numbers written in decimal and separated by blanks is read back as those numbers |
| TourReader.Values | validator/hclib.c:175-199 | the number stream is each line's values, line after line, so a tour may span lines |
| TourReader.UntilSentinel | validator/hclib.c:182-186 | the stream read is the longest prefix free of -1; it is cut exactly at the first -1 |
| TourReader.Accepted | validator/hclib.c:188-195 | only values in 1..n are kept, never more than were read |
| TourReader.UntilSentinelAppend | validator/hclib.c:175-186 | numbers before any -1 pass through unchanged, and reading then goes on into the next line |
| TourReader.SentinelEndsStream | validator/hclib.c:182-186 | whatever follows a -1, on the same line or later lines, is never read |
| TourReader.AcceptedAppend | validator/hclib.c:188-191 | acceptance looks at each token alone and keeps input order |
| TourReader.AcceptedMembers | validator/hclib.c:188 | a number is stored exactly when it was read and lies in 1..n |
| TourReader.AcceptOne | validator/hclib.c:188-195 | one more number is appended to the stored nodes exactly when it lies in 1..n |
| TourReader.BoundedPrefix | validator/hclib.c:173-201 | nodes stored before any -1 are never more than those stored from the whole stream, so the write position stays inside the buffer |
| TourReader.Store | validator/hclib.c:190-191 | writing at the write position extends the stored prefix by the node and keeps zeros after it |
| TourReader.ReadLine | validator/hclib.c:177-199 | the token loop of one line appends the accepted values at the write position and reports a -1 |
| TourReader.ReadLineAt | validator/hclib.c:175-199 | one pass of the line loop consumes that line's numbers from the stream, or stops the stream at its first -1 |
| TourReader.ReadNodes | validator/hclib.c:173-201 | the line loop stores the accepted values of the stream up to the first -1, in order, and leaves the remaining slots 0 |
| TourReader.TourNodes | validator/hclib.c:173-201 | the stored nodes all lie in 1..n and are never more than the numbers read |
| TourReader.ReadTour | validator/hclib.c:131-211 | `read_tour` returns the declared node count and a buffer of that length whose first `found` slots are the accepted nodes in input order, with the rest 0 |
| Validator.FirstMissingEdge | validator/hclib.c:267-276 | it is None exactly when every step of the walk has an edge; otherwise it is the least step without one |
| Validator.NodesCount | validator/hclib.c:279-283 | the visited count is at most the walk's length, and equals it exactly when no node repeats |
| Validator.NoneVisited | validator/hclib.c:245-251 | the marks array starts with no node visited |
| Validator.Visit | validator/hclib.c:279-283 | marking a node keeps the marks equal to the visited set, and the count equal to its size |
| Validator.Walk | validator/hclib.c:248-287 | the walk stops at the first step without an edge and reports it; otherwise it covers all n entries and counts the distinct nodes |
| Validator.WalkStopsAtFirstMissingEdge | validator/hclib.c:267-276 | where the walk stops is the first missing edge |
| Validator.Expected | validator/hclib.c:228-319 | the verdict is valid only when the counts agree and the graph is non-empty; a negative node count walks nothing and reports no node visited |
| Validator.ExpectedAfterWalk | validator/hclib.c:290-319 | after the walk come the coverage check and then the closing-edge check |
| Validator.Validate | validator/hclib.c:225-329 | `hc_validate` returns the outcome of the checks taken in the source's order: size mismatch, empty graph, missing edge, unvisited nodes, open cycle, else valid |
| Validator.HamiltonianVisitsAll | validator/hclib.c:290-297 | a Hamiltonian cycle visits every node 1..n |
| Validator.HamiltonianAccepted | validator/hclib.c:244-319 | every Hamiltonian cycle passes all the checks |
| Validator.AcceptedIsHamiltonian | validator/hclib.c:244-319 | a tour that passes all the checks on a matrix with empty row and column 0 is a Hamiltonian cycle: distinct non-zero nodes, an edge at each step, and the closing edge |
| Validator.ValidIffHamiltonian | validator/hclib.c:225-329 | the verdict is valid if and only if the tour is a Hamiltonian cycle |
| Validator.MissingEdgeRejected | validator/hclib.c:267-276 | a step without an edge is rejected as a missing edge; it is reported at that step when it is the first such step |
| Validator.RepeatRejected | validator/hclib.c:279-297 | a tour that repeats a node is rejected, either at a missing edge or because a node goes unvisited |
| Validator.OpenPathRejected | validator/hclib.c:306-319 | a tour whose first and last nodes are not adjacent is rejected; it is rejected as not closed when it is otherwise a Hamiltonian path |
| Validator.CompleteGraphAccepts | validator/hclib.c:244-319 | in a complete graph, every ordering of the n nodes (n >= 2) is accepted |
| Validator.SingleNodeNeedsSelfLoop | validator/hclib.c:306-319 | with one node, the tour is accepted exactly when that node has a self-loop |

## Left out

- File input: `fopen`, `fgets` and `fclose`. A reader's input is the sequence of lines `fgets` would return. Truncation at `LINESIZE` characters (hclib.c:8) is not modelled.
- A file that fails to open: the readers then return an uninitialised pointer (hclib.c:23, 105, 134, 210). This is undefined behaviour and is not modelled.
- Diagnostics: the `verbose` messages of `hc_validate`, the stderr warnings of `read_tour` (hclib.c:194, 204), and `dprint` with its `debug` flag (hclib.c:11-15).
  - `Validate` returns the reason as an `Outcome` instead of printing it.
  - `ReadTour` returns the count of stored nodes that the final warning compares with n.
- `print_path`, `free_graph` and `free_tour`: printing and freeing memory only.
- validator/hc_check.c, the command-line driver, is not part of this model.
- Text.Atoi: integers are unbounded. A number outside the C `int` range is not wrapped; C leaves that case undefined.
- Header.WellFormed: a `DIMENSION` header line with no value token hands a null pointer to `atoi` (hclib.c:50-51). The model excludes such input by precondition.
- GraphReader.ReadGraph: the source writes `graph[u][v]` without checking `u, v <= n` (hclib.c:94-95). The precondition `EdgesFit` excludes such input.
- TourReader.ReadTour: the source writes `tour[current_pos]` without checking it against n (hclib.c:190). The precondition excludes inputs with more accepted nodes than n.
- Validator.Validate: the source indexes the matrix and the marks array with unchecked tour entries. The precondition `Fits` (entries in 0..n, an (n+1)-square matrix) excludes other input. By their postconditions, a buffer from `ReadTour` and a matrix from `ReadGraph` with the same n meet it.
- Validator.ValidIffHamiltonian: the equivalence needs `ZeroBorder`, an empty row and column 0. Without it, a node 0 in the tour could pass the checks. Every matrix `ReadGraph` builds has an empty row and column 0.
- Negative `DIMENSION`: `malloc` receives a negative or wrapped size. The model gives a matrix side of 0 (`GraphReader.Side`) and a tour length of 0 (`TourReader.Capacity`). `hc_validate` then walks nothing and reports that not all nodes were visited.
- The allocation sizes use `sizeof(int*)` where `sizeof(int)` is meant. This only over-allocates, and the model's arrays have the intended lengths.
