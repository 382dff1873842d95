# Centrality analysis of a co-authorship graph, in Dafny

This project models the core of `centrality_analysis`, a Rust program that
reads a co-authorship edge list, builds an undirected graph of authors and
ranks the authors by two centrality scores:

- **Loading** (`load_graph`). Lines that start with `#`, and blank lines, are
  skipped. Every other line is split on whitespace. The tokens that parse as a
  `usize` are kept. A line with exactly two distinct values adds the canonical
  pair `(min, max)` to a set.
- **Building.** A second pass gives every author id a dense node index the
  first time the id appears (`node_map`), and adds one graph edge per pair of
  the set.
- **Degree.** An author's degree is the number of edges incident to the
  author's node.
- **Path sum.** An author's path sum is the total hop distance from the
  author's node to every node it can reach. The source calls it "betweenness".
- **Independence of numbering.** Node indices depend on the order in which
  the set yields its pairs. Both scores are also defined directly on the
  graph of input pairs, with no indices: an author's degree is the number of
  pairs that contain it, and its path sum is the sum of its hop distances to
  the other authors. Both maps of a loaded graph are proved equal to these,
  so they are the same for every iteration order.
- **Ranking** (`print_top`). A score map is sorted by score, highest first,
  and its first ten entries are shown.

Modules (one file each):

- `Wrappers` (`wrappers.dfy`): `Option` and `Result`.
- `SetFacts` (`sets.dfy`): small facts about finite sets.
- `LineFilter` (`line_filter.dfy`): `char::is_whitespace`, `split_whitespace`,
  `usize::from_str`, and the edge a single line yields.
- `Graphs` (`graphs.dfy`): the `AuthorGraph` class and what it means for a
  graph to represent an edge set.
- `Loader` (`loader.dfy`): the two loops of `load_graph`, and `load_graph`
  itself.
- `Centrality` (`centrality.dfy`): the degree loop, a breadth-first search
  with its hop-distance specification, the path-sum loop, and the score maps.
- `Ranking` (`ranking.dfy`): the ranking `print_top` shows.

How the model treats the program's environment:

- The input file is a parameter. `None` means the file could not be opened.
  Otherwise the file is a sequence of line reads, each either some text or a
  read failure.
- Hash-set and hash-map iteration order is arbitrary in the source. The model
  picks elements with `:|`, so every proof holds for every order.
- Printing is replaced by returning the ranked entries.

## Model

| member | source | states |
|---|---|---|
| LineFilter.Tokens | Project/centrality_analysis/src/main.rs:28-29 | every token `split_whitespace` yields is non-empty and contains no whitespace |
| LineFilter.TokensKeepVisible | Project/centrality_analysis/src/main.rs:29 | the tokens, concatenated, are exactly the line's non-whitespace characters in order |
| LineFilter.TokensEmptyIffBlank | Project/centrality_analysis/src/main.rs:25-29 | a line has no tokens exactly when `trim().is_empty()` holds for it |
| LineFilter.TokensOfJoin | Project/centrality_analysis/src/main.rs:29 | splitting undoes joining whitespace-free words with single spaces |
| LineFilter.ParseUsize | Project/centrality_analysis/src/main.rs:30 | a parsed value fits a 64-bit `usize`; a token starting with `-` never parses |
| LineFilter.ParseDecimal | Project/centrality_analysis/src/main.rs:30 | every decimal rendering of a `usize`, with or without a leading `+`, parses back to the value |
| LineFilter.TwoSome | Project/centrality_analysis/src/main.rs:30-33 | filtering the parse results leaves exactly `[a, b]` iff exactly two parse, `a` first, `b` second |
| LineFilter.OneSome | Project/centrality_analysis/src/main.rs:30-31 | filtering leaves exactly `[b]` iff exactly one token parses, to `b` |
| LineFilter.NoSome | Project/centrality_analysis/src/main.rs:30-31 | filtering leaves nothing iff no token parses |
| LineFilter.Normalize | Project/centrality_analysis/src/main.rs:36 | `(min, max)` is ordered and is the same unordered pair as its arguments |
| LineFilter.LineEdge | Project/centrality_analysis/src/main.rs:25-38 | a line's pair, when it has one, has its smaller id first and so is no self-loop |
| LineFilter.LineEdgeSpec | Project/centrality_analysis/src/main.rs:25-38 | a line yields pair `e` iff it is not a comment, not blank, exactly two tokens parse, to distinct values, and `e` is their canonical pair |
| LineFilter.EdgeLineRoundTrip | Project/centrality_analysis/src/main.rs:25-38 | the line "u v" yields `(min(u,v), max(u,v))` |
| LineFilter.NumberLine | Project/centrality_analysis/src/main.rs:28-38 | a line of numbers yields a pair iff it holds exactly two distinct numbers |
| LineFilter.ExtraWordIgnored | Project/centrality_analysis/src/main.rs:30-33 | a token that does not parse, between two numbers, is ignored |
| LineFilter.CommentSkipped | Project/centrality_analysis/src/main.rs:25-26 | a line starting with `#` yields nothing, whatever follows |
| LineFilter.NegativeSkipped | Project/centrality_analysis/src/main.rs:30-33 | a negative number does not parse, so "-u v" yields nothing |
| LineFilter.TabSeparated | Project/centrality_analysis/src/main.rs:28-36 | "c\td" with two distinct digits yields their canonical pair |
| Loader.CollectMembership | Project/centrality_analysis/src/main.rs:33-37 | a pair is in the set iff some line holds it, and the set is no larger than the number of lines |
| Loader.EdgesOfSnoc | Project/centrality_analysis/src/main.rs:23-37 | one more line adds its own pair, if it has one, and nothing else |
| Loader.EdgesOfMembership | Project/centrality_analysis/src/main.rs:23-37 | a pair is in the edge set iff some line yields it |
| Loader.OrientationAndDuplicatesCollapse | Project/centrality_analysis/src/main.rs:36 | "u v" and "v u" add the same single pair; a repeat adds nothing |
| Loader.CollectEdges | Project/centrality_analysis/src/main.rs:22-39 | succeeds iff every line reads, and then returns the edge set of the lines' texts |
| Loader.NodeFor | Project/centrality_analysis/src/main.rs:42-43 | a known id keeps its index; a new id gets the next index; node map and payload stay inverse |
| Loader.AddPair | Project/centrality_analysis/src/main.rs:41-45 | one turn of the second loop keeps nodes and edges exactly those of the pairs done so far; existing nodes keep their indices and payloads, the node map only grows, and the edge list gains exactly the index edge of the new pair at its end |
| Loader.MatchedRepresents | Project/centrality_analysis/src/main.rs:41-45 | a node map inverse to the payload, plus matched edges, gives a graph that represents the set |
| Loader.BuildGraph | Project/centrality_analysis/src/main.rs:41-45 | the built graph has one node per distinct id, one edge per pair, no repeats, and a bijective id map |
| Loader.LoadGraph | Project/centrality_analysis/src/main.rs:17-49 | an unopenable file gives the empty graph; an unreadable line gives the error; otherwise the graph represents the file's edge set |
| Loader.LoadTestFile | Project/centrality_analysis/src/main.rs:202-210 | loading the test file "1\t2\n2\t3\n3\t1\n4\t5\n" gives a graph with 5 nodes and 4 edges |
| Loader.TriangleAndPair | Project/centrality_analysis/src/main.rs:17-49 | the file "1\t2", "2\t3", "3\t1", "4\t5" gives 4 edges over 5 authors |
| Graphs.CanonicalHasNoSelfLoops | Project/centrality_analysis/src/main.rs:35-44 | a graph built from canonical pairs has no self-loops |
| Graphs.AuthorGraph.AddNode | Project/centrality_analysis/src/main.rs:42 | the new node gets the next index and carries the id; edges unchanged |
| Graphs.AuthorGraph.AddEdge | Project/centrality_analysis/src/main.rs:44 | appends one edge between two existing nodes; nodes unchanged |
| Centrality.IncidentEdgeCount | Project/centrality_analysis/src/main.rs:60 | the count of the edges at a node is its degree |
| Centrality.DegreeCountsIncidentEdges | Project/centrality_analysis/src/main.rs:60 | the degree is the number of edge indices incident to the node |
| Centrality.Degrees | Project/centrality_analysis/src/main.rs:59-61 | one degree per node, in node order |
| Centrality.DegreeSum | Project/centrality_analysis/src/main.rs:59-61 | with no self-loops, the degrees add up to twice the number of edges |
| Centrality.KeyedByEntries | Project/centrality_analysis/src/main.rs:59-67 | the score map has exactly the ids as keys; with distinct ids it has one entry per node holding that node's score |
| Centrality.LoadedDegrees | Project/centrality_analysis/src/main.rs:59-61 | for a loaded graph the degree map has one entry per author, holds that author's degree, sums to twice the edge count, and is exactly the map from each author of the edge set to the number of pairs containing it |
| Centrality.DegreeOfAuthor | Project/centrality_analysis/src/main.rs:60 | for a loaded graph, the degree of a node is the number of input pairs that contain its author |
| Centrality.DegreeMapOfLoaded | Project/centrality_analysis/src/main.rs:59-61 | the degree map of a loaded graph is determined by the edge set alone: each author maps to the number of pairs containing it |
| Centrality.StepMember | Project/centrality_analysis/src/main.rs:65 | a node is one hop from a set iff some edge joins it to the set |
| Centrality.DistanceFromStart | Project/centrality_analysis/src/main.rs:65-66 | the start is at distance 0 from itself and every other node is further |
| Centrality.DistanceNeighbour | Project/centrality_analysis/src/main.rs:65-66 | a neighbour of a reachable node is reachable, at most one hop further |
| Centrality.DistancePredecessor | Project/centrality_analysis/src/main.rs:65-66 | every reachable node other than the start has a neighbour exactly one hop closer |
| Centrality.NewNeighbours | Project/centrality_analysis/src/main.rs:65 | the unseen nodes one hop from the frontier |
| Centrality.SearchAdvances | Project/centrality_analysis/src/main.rs:65 | one search round keeps every recorded distance exact and makes progress |
| Centrality.Bfs | Project/centrality_analysis/src/main.rs:65 | the distance map has exactly the reachable nodes as keys, each holding its hop distance |
| Centrality.PathSumFrom | Project/centrality_analysis/src/main.rs:65-66 | the sum of the distances is the path sum: reachable nodes add their distance, unreachable ones nothing |
| Centrality.ComputeCentralities | Project/centrality_analysis/src/main.rs:53-68 | the degree map and the path-sum map, keyed by external id, for a graph the method does not change |
| Centrality.PathSumEntries | Project/centrality_analysis/src/main.rs:64-68 | the path-sum map has one entry per author, holding the path sum from that author's node |
| Centrality.BallToIds | Project/centrality_analysis/src/main.rs:65 | for a loaded graph, the nodes within d hops of a node carry exactly the authors within d hops of its author in the graph of input pairs |
| Centrality.ReachableToIds | Project/centrality_analysis/src/main.rs:65 | a node reaches another exactly when its author reaches the other's author through input pairs |
| Centrality.DistanceToIds | Project/centrality_analysis/src/main.rs:65 | the hop distance between two nodes is the hop distance between their authors through input pairs |
| Centrality.DistanceSumRemove | Project/centrality_analysis/src/main.rs:66 | the sum of the distances over a set of authors does not depend on the order they are added in |
| Centrality.PathSumOfAuthor | Project/centrality_analysis/src/main.rs:64-67 | for a loaded graph, the path sum from a node is the sum, over all authors of the edge set, of their hop distance from its author, unreachable authors adding nothing |
| Centrality.LoadedPathSums | Project/centrality_analysis/src/main.rs:64-68 | the path-sum map of a loaded graph is determined by the edge set alone: each author maps to its path sum in the graph of input pairs |
| Centrality.ScoresIndependentOfNumbering | Project/centrality_analysis/src/main.rs:40-68 | two graphs loaded from the same edge set, whatever order the set yields its pairs in, give the same degree map and the same path-sum map |
| Centrality.PathOfThree | Project/centrality_analysis/src/main.rs:64-68 | on the path 1 - 2 - 3 the middle author has path sum 2 and the two ends 3 |
| Centrality.UnreachableAddNothing | Project/centrality_analysis/src/main.rs:65-66 | example: in the graph 0 - 1, 2 - 3 the nodes 2 and 3 are unreachable from 0, and the path sum from 0 over the four nodes is 1 |
| Ranking.Entries | Project/centrality_analysis/src/main.rs:126 | collecting the map gives each of its entries exactly once |
| Ranking.SortByScore | Project/centrality_analysis/src/main.rs:127 | the entries end in non-increasing score order, as a permutation of the input |
| Ranking.InsertLast | Project/centrality_analysis/src/main.rs:127 | one insertion step extends the sorted prefix by one, as a permutation, and leaves the unsorted suffix as it was |
| Ranking.TopRanked | Project/centrality_analysis/src/main.rs:125-131 | min(10, size) entries of the map, each author once, in non-increasing score order, and no author left out scores above the last one shown |
| Ranking.PermutationKeepsDistinct | Project/centrality_analysis/src/main.rs:126-127 | sorting keeps every entry a pair of the map with no author repeated |
| Ranking.SmallMapsShownWhole | Project/centrality_analysis/src/main.rs:128 | a map with at most ten entries is shown whole |
| Ranking.ScoresDetermined | Project/centrality_analysis/src/main.rs:125-131 | whatever order the map yields, the scores shown are the same, position by position |
| Ranking.TieExample | Project/centrality_analysis/src/main.rs:125-131 | for scores {1: 5, 2: 3, 3: 5, 4: 1} the scores shown are 5, 5, 3, 1 |

## Left out

- Eigenvector centrality (main.rs lines 70-111) is left out. It iterates on floating-point values, and nothing in the model depends on it.
- Visualisation (main.rs lines 134-160), `main`, connected components and the printing in `print_top` are left out. They are output only; the ranking is returned instead of printed.
- `read_lines` and file I/O are not modelled. The file is a parameter: `None` when it cannot be opened, giving the empty graph as the source does, and otherwise a sequence of line reads.
- `BufRead::lines()` itself is not modelled: the model receives lines that are already split, with the line terminator removed.
- `usize` is taken to be 64 bits wide. `UsizeMax` is 2^64 - 1.
- Graphs.AuthorGraph.AddNode, Graphs.AuthorGraph.AddEdge: `AuthorGraph` uses petgraph's default `u32` index, so `add_node` and `add_edge` panic once 2^32 - 1 nodes or edges exist. The model's indices are unbounded and it has no such panic.
- PathSumFrom: the sum of the distances is a `usize` and the model sums in unbounded integers. An overflowing sum would need a graph of more than 2^32 nodes. The `u32` index limit above keeps the source from building one, so the sum never overflows in practice.
- Bfs: `dijkstra` with unit weights is replaced by a breadth-first search. The model specifies the hop distance directly. Both give each reachable node, with the start at 0, its fewest number of hops.
- Whitespace is the fixed list of characters with the Unicode White_Space property, which is what `char::is_whitespace` uses. No other Unicode processing is modelled.
- Self-loops are never added, so how petgraph counts a self-loop in `edges(node)` is not modelled.
- Hash-map and hash-set iteration order is not modelled. Every loop over a set or map picks an arbitrary element, so the proofs hold for every order.
- Ranking.TopRanked: the stable order among equal scores is not stated. It depends on the map's iteration order, which is arbitrary; ScoresDetermined shows that the scores themselves are fixed.
- petgraph's internal storage (edge lists per node, free lists) is not modelled. The graph is a payload sequence and an edge sequence.
