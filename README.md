# dissyssym: topologies, route tables and the analysis scripts, in Dafny

This project models the parts of the dissyssym simulator that deal with
topologies and routes. It also models the Python scripts that turn the
simulator's output files back into data.

- **Topologies** (`dissyssym-lib/src/topology.rs`)
  - The edge-list text that `Topology::write` stores and `Topology::parse` reads
    back, one `"a b"` line per edge.
  - The stub-matching generator of `c`-regular graphs (`try_generate`,
    `suitable_graph`, `generate`).
  - The flow graph and its augmenting-path `max_flow`.
  - The `connectivity` minimum.
- **Path search** (`dissyssym-lib/src/routecache.rs`, `routed.rs`). Both files
  use the same bounded, round-based search. Every round extends the queued walks
  by one neighbour. A node accepts a new walk only if, apart from the source,
  the walk avoids every path the node already stores. Each node keeps at most
  `f + 1` paths, chosen by the sort order of their digest.
  - `RouteCache` memoises the search under a key: the digest of a canonical
    text of the inputs.
  - `RoutedAlgorithm::build_routes` reads a node's next hops off the stored
    paths. `new` builds the table of next hops, one entry per source.
- **Scripts** (`scripts/*.py`)
  - `graph_messages.py` and `graph_pathtime.py` parse every line of a results
    file with a fixed `parse` template. They group one measurement per line in
    a dict of dicts of lists, `results[f][n]`, and plot one series per `f`. The
    series' x values are the sorted `n`, and its y values are the rounded means.
  - `graph_failure.py` splits the failure lines into the fast-search and the
    path-search scatter series.
  - `debug2top.py` turns the `Debug` text of an adjacency map into directed
    edges.
  - `vis_topology.py` reads an edge-list file into edges.

The model is imperative wherever the source is:

- loops are `while`/`for` loops with invariants;
- the two objects are classes whose methods update their fields (`Topology`
  and `RouteCache`, plus `RoutedAlgorithm`'s constructor);
- hash-map and hash-set iteration order is a free choice (`:|`);
- randomness (`shuffle`, `choose_multiple`) is a free choice of the swap or slot
  index.

Each method is proved against a specification function or predicate, and the
properties the source relies on are lemmas about those functions.

- **Round trips**:
  - `write` followed by `parse`'s line loop gives the edges back, and so does
    `vis_topology.py`;
  - the lines `pathtime.rs` and `failure.rs` write are read back by their
    scripts' templates;
  - Rust's `Debug` text of a map is read back by `debug2top.py`.
- **The route cache**:
  - a hit changes nothing;
  - a miss stores the search's result;
  - no entry is ever replaced.
- **The search**:
  - it terminates;
  - every stored path is a walk from the source;
  - no node stores more than `f + 1` paths;
  - the early skip of `routecache.rs` changes nothing: a round takes the same
    state to the same next states with or without it, so the search there and
    the copy in `routed.rs` have exactly the same possible results.

Three points about the code that the model follows:

- The scripts do not skip a line that does not match its template. They unpack
  `parse`'s `None` and stop with an exception. A blank line is no exception to
  this.
- `Topology::parse` in `topology.rs` does not skip a bad line. It panics at the
  first one.
- `connectivity` is not node connectivity. It is the least of `n`, the degrees
  and the number of augmenting paths that `max_flow` finds. Those paths need not
  be edge-disjoint: a later path may cross an edge an earlier one used, in the
  opposite direction. A node label below `n` that is not reachable forces it
  to 0.

Nothing here is executed. The whole claim is that the Dafny verifier accepts the
proofs.

## Model

| member | source | states |
|---|---|---|
| `Flow.AdjacencyOfKeys` | dissyssym-lib/src/topology.rs:247-265 | the flow graph's nodes are exactly the endpoints of the edge list |
| `Flow.AdjacencyOfLinks` | dissyssym-lib/src/topology.rs:250-262 | `b` is a neighbour of `a` exactly when some edge joins them, in either direction; duplicate edges collapse |
| `Flow.AdjacencyOfSymmetric` | dissyssym-lib/src/topology.rs:247-265 | the neighbour relation is symmetric and every neighbour is itself a node |
| `Flow.NewFlowGraph` | dissyssym-lib/src/topology.rs:247-265 | the map filled in place is the adjacency map of the edges, with the three properties above |
| `Flow.SeparatedNotConnected` | dissyssym-lib/src/topology.rs:211-227 | no walk leaves a node set that no edge leaves, so nodes on opposite sides of it are not connected |
| `Flow.Expand` | dissyssym-lib/src/topology.rs:300-310 | queueing the neighbours of `n` keeps the search invariant: queued nodes are nodes of the graph with a predecessor, and every predecessor arc is unused |
| `Flow.Search` | dissyssym-lib/src/topology.rs:286-311 | the breadth-first search ends with the invariant on an empty queue, every predecessor coloured before its successor |
| `Flow.ChainReversed` | dissyssym-lib/src/topology.rs:317-325 | the predecessor chain from `t`, once it reaches `s` and is reversed, is an augmenting path: `s` only at its head, `t` only at its end, no arc on it already flowing |
| `Flow.Reconstruct` | dissyssym-lib/src/topology.rs:317-325 | the `while c != s` walk back from `t` returns an augmenting path |
| `Flow.Augment` | dissyssym-lib/src/topology.rs:326-329 | augmenting keeps the flowing arcs valid and adds exactly one new arc out of `s` and one new arc into `t` |
| `Flow.CountFlow` | dissyssym-lib/src/topology.rs:332-343 | the +1/-1 count is the number of flowing arcs out of `s` |
| `Flow.MaxFlow` | dissyssym-lib/src/topology.rs:271-344 | 0 when `s` or `t` is missing or `s == t`; never more than either endpoint's neighbour count; positive only when `s` and `t` are connected |
| `Flow.LeastDegree` | dissyssym-lib/src/topology.rs:213-217 | the first loop's minimum is at most `n` and every neighbour count, and equals `n` or one of them |
| `Flow.RunningStep` | dissyssym-lib/src/topology.rs:221-222 | one more `max_flow` value keeps the running minimum the least of everything seen so far |
| `Flow.FlowsFrom` | dissyssym-lib/src/topology.rs:220-223 | the inner loop adds exactly the pairs `(i, j)` with `i < j < n`, keeping the running minimum |
| `Flow.Connectivity` | dissyssym-lib/src/topology.rs:211-227 | the result is the least of `n`, every neighbour count and one admissible flow per pair below `n`; a pair below `n` that is not connected forces 0 |
| `Topology.RustLinesFirst` | dissyssym-lib/src/topology.rs:80 | the first line of a text is everything before its first newline, less a final `'\r'` |
| `Topology.RustLinesAppend` | dissyssym-lib/src/topology.rs:80 | a newline-terminated prefix contributes its own lines and nothing else |
| `Topology.RustLinesOne` | dissyssym-lib/src/topology.rs:80 | one newline-terminated line gives back that line alone |
| `Topology.ParseUsize` | dissyssym-lib/src/topology.rs:85 | `parse::<usize>` accepts only an optional `+` and digits, within 64 bits, and yields their value |
| `Topology.ParseUsizeDecimal` | dissyssym-lib/src/topology.rs:85 | every `usize` reads back from its decimal text |
| `Topology.ParseEdgeLine` | dissyssym-lib/src/topology.rs:81-91 | an edge comes from the first two space-separated tokens, both in range; the second `expect` fires exactly when the line is one number with no space |
| `Topology.Normalise` | dissyssym-lib/src/topology.rs:96-100 | the pushed pair is ordered and has the same endpoints |
| `Topology.Collect` | dissyssym-lib/src/topology.rs:80-101 | all lines parse exactly when the result is the ordered edges of every line in order; otherwise the error is the first failing line and its fault |
| `Topology.CollectStep` | dissyssym-lib/src/topology.rs:80-101 | one more line appends its edge, or its fault becomes the result |
| `Topology.CollectPrefixError` | dissyssym-lib/src/topology.rs:80-101 | the first failure in a prefix is the first failure of the whole file |
| `Topology.ParseEdges` | dissyssym-lib/src/topology.rs:77-101 | the line loop computes the line-by-line result, and `uniques` is exactly the set of labels of the edges |
| `Topology.LabelsAppend` | dissyssym-lib/src/topology.rs:93-94 | one more edge adds its two endpoints to the labels |
| `Topology.EdgeLineParses` | dissyssym-lib/src/topology.rs:81-91 | `"{a} {b}"` parses back to `(a, b)` |
| `Topology.EdgeListLines` | dissyssym-lib/src/topology.rs:60-66 | the written text has one `str::lines` line per edge, that edge's `"a b"` |
| `Topology.WriteThenRead` | dissyssym-lib/src/topology.rs:60-101 | ordered edges that `write` stores are read back by `parse`'s line loop unchanged and in order |
| `Topology.FirstTokenFaults` | dissyssym-lib/src/topology.rs:82-86 | a blank line or a non-numeric first token fails at the first parse |
| `Topology.SecondTokenFaults` | dissyssym-lib/src/topology.rs:87-91 | a lone number has no second token; a trailing space gives an empty one that does not parse |
| `Topology.ExtraTokensIgnored` | dissyssym-lib/src/topology.rs:81-91 | tokens after the second do not change the edge |
| `Topology.StubsBelow` | dissyssym-lib/src/topology.rs:139-142 | every initial stub is a label below `n` |
| `Topology.StubsLength` | dissyssym-lib/src/topology.rs:139-142 | there are `n * d` initial stubs |
| `Topology.StubsCount` | dissyssym-lib/src/topology.rs:139-142 | each label below `n` occurs `d` times among the stubs, and no other value occurs |
| `Topology.Shuffle` | dissyssym-lib/src/topology.rs:146 | the shuffle is a permutation of the stubs |
| `Topology.AcceptKeepsBalance` | dissyssym-lib/src/topology.rs:158-159 | an accepted pair moves its two stubs from the unread ones into the edges, and no stub is lost |
| `Topology.RejectKeepsBalance` | dissyssym-lib/src/topology.rs:160-163 | a rejected pair moves both stubs into the pending counts, and no stub is lost |
| `Topology.AcceptKeepsPairing` | dissyssym-lib/src/topology.rs:158-159 | accepting a new ordered pair keeps the edges simple |
| `Topology.RejectKeepsPairing` | dissyssym-lib/src/topology.rs:160-163 | rejecting keeps the pending counts equal to the pending stubs |
| `Topology.PairStep` | dissyssym-lib/src/topology.rs:149-163 | one pair of stubs keeps the edges simple, only extends them, and accounts for both stubs |
| `Topology.PairAt` | dissyssym-lib/src/topology.rs:149-163 | iteration `i` accounts for stubs `2i` and `2i + 1` |
| `Topology.PairUp` | dissyssym-lib/src/topology.rs:148-164 | the pairing loop keeps the edges simple and extends them; every stub except an odd last one ends up in an edge or in `possible_edges` |
| `Topology.StubsFrom` | dissyssym-lib/src/topology.rs:170-175 | the rebuilt stubs hold each node exactly as many times as its potential |
| `Topology.SuitableGraph` | dissyssym-lib/src/topology.rs:181-209 | true exactly when nothing is pending or two distinct pending nodes are not yet joined |
| `Topology.RoundAccounted` | dissyssym-lib/src/topology.rs:144-176 | after a round, every stub of the `d`-regular target is an edge end, still to pair, or the dropped odd one |
| `Topology.TryGenerate` | dissyssym-lib/src/topology.rs:137-179 | a built graph is simple, no node exceeds degree `d`, and when `n * d` is even every node below `n` has degree exactly `d` |
| `Topology.ChooseMultiple` | dissyssym-lib/src/topology.rs:56 | `min(amount, n)` distinct labels below `n` |
| `Topology.Topology.Default` | dissyssym-lib/src/topology.rs:230-239 | every field is zero or empty |
| `Topology.Topology.constructor` | dissyssym-lib/src/topology.rs:113-118 | the fields are those given |
| `Topology.Topology.Write` | dissyssym-lib/src/topology.rs:60-66 | the text built is one `"a b\n"` line per edge of the object, in order |
| `Topology.Topology.Generate` | dissyssym-lib/src/topology.rs:22-58 | `c == 0` and `n <= c` are the two `assert!` panics, each its own error, and change nothing; an odd `n * c` changes nothing; an exhausted budget keeps the old edges and faulty nodes; success stores a simple `c`-regular graph on `0..n` whose connectivity is `c` and `min(f, n)` distinct faulty labels |
| `Topology.Parse` | dissyssym-lib/src/topology.rs:73-119 | a bad line is reported at the first one; `None` when the connectivity is at most `f`; otherwise a new object with the file's edges, `n` the number of labels, `c > f` its connectivity and `min(f, n)` distinct faulty labels |
| `PathSearch.Acceptable` | dissyssym-lib/src/routecache.rs:59-77 | the `valid` flag holds exactly when no node of the path but the source lies on a stored path of the neighbour |
| `PathSearch.ExtensionsExactly` | dissyssym-lib/src/routecache.rs:55-90 | a path is a candidate for `v` exactly when a queued walk offers it, extended by `v` |
| `PathSearch.GatherOffer` | dissyssym-lib/src/routecache.rs:79-88 | an offered candidate is appended to the neighbour's list, whether or not the list exists yet |
| `PathSearch.OfferAll` | dissyssym-lib/src/routecache.rs:56-89 | the loop over one walk's neighbours adds exactly the candidates that walk offers |
| `PathSearch.Propose` | dissyssym-lib/src/routecache.rs:55-90 | the candidate map is the candidates of the whole queue, per node in queue order |
| `PathSearch.Popped` | dissyssym-lib/src/routecache.rs:109-116 | up to `room` pops take the last elements first |
| `PathSearch.TakenFromCandidates` | dissyssym-lib/src/routecache.rs:106-116 | a node keeps `min(room, candidates)` of its own candidates |
| `PathSearch.KeepsLargestKeys` | dissyssym-lib/src/routecache.rs:106-116 | no candidate left behind has a greater digest than a kept one |
| `PathSearch.PopInto` | dissyssym-lib/src/routecache.rs:109-116 | the popped paths are appended both to the node's paths and to the queue |
| `PathSearch.AdmitNode` | dissyssym-lib/src/routecache.rs:93-116 | the node's list grows by exactly the paths it keeps, and so does the queue |
| `PathSearch.Admit` | dissyssym-lib/src/routecache.rs:92-117 | the admission phase stores what every node keeps, and queues it in some order of the candidate map |
| `PathSearch.Round` | dissyssym-lib/src/routecache.rs:51-117 | one round is the candidate phase followed by the admission phase |
| `PathSearch.StartState` | dissyssym-lib/src/routecache.rs:43-48 | the initial table and queue `[[s]]` satisfy the search invariant |
| `PathSearch.NewPaths` | dissyssym-lib/src/routecache.rs:79-116 | a path kept in round `r` is a walk from `s` to its node, `r + 2` long, that avoids the node's stored paths |
| `PathSearch.SeparatedExtend` | dissyssym-lib/src/routecache.rs:109-116 | appending equal-length paths that avoid the shorter stored ones keeps stored paths of different lengths meeting only at `s` and their end; paths added in the same round are not checked against each other |
| `PathSearch.SettledNode` | dissyssym-lib/src/routecache.rs:92-117 | after a round each node holds at most `f + 1` separated walks from `s` |
| `PathSearch.RoundTable` | dissyssym-lib/src/routecache.rs:50-118 | a round keeps the bound, the walk shape, the separation and `[s]` first at `s` |
| `PathSearch.RoundState` | dissyssym-lib/src/routecache.rs:50-118 | the search invariant holds again one round later |
| `PathSearch.RoundIdle` | dissyssym-lib/src/routecache.rs:92-117 | a round that queues nothing stores nothing |
| `PathSearch.RoundFills` | dissyssym-lib/src/routecache.rs:92-117 | a round that queues something fills an open slot, so the loop terminates |
| `PathSearch.RoundProgress` | dissyssym-lib/src/routecache.rs:50-118 | a round either changes nothing and ends the loop, or shrinks the open slots |
| `PathSearch.Search` | dissyssym-lib/src/routecache.rs:35-121 | the search terminates; it is a run of rounds ending with an empty queue; every node holds at most `f + 1` walks from `s`; walks of different lengths meet only at `s` and their end, while walks added in the same round are not checked against each other; `s` holds `[s]` first |
| `PathSearch.ExtensionsFull` | dissyssym-lib/src/routecache.rs:62-64 | with the skip, a node already holding more than `f` paths is offered nothing |
| `PathSearch.ExtensionsSkip` | dissyssym-lib/src/routecache.rs:62-64 | for a node with room the skip changes none of its candidates |
| `PathSearch.SkipChangesNothing` | dissyssym-lib/src/routecache.rs:62-64 | with or without the skip, every node keeps the same paths in a round |
| `PathSearch.SkipSameStep` | dissyssym-lib/src/routecache.rs:62-64 | a round can take a state to a next table and queue with the skip exactly when it can without it, in some order of the candidate map |
| `PathSearch.SkipSameRun` | dissyssym-lib/src/routecache.rs:50-118 | a trace is a complete run with the skip exactly when it is one without it |
| `PathSearch.SkipSameOutcome` | dissyssym-lib/src/routecache.rs:35-121 | the searches with and without the skip have exactly the same possible results |
| `RouteCache.AscendingOf` | dissyssym-lib/src/routecache.rs:128-134 | sorting any listing of a set gives the same text list, whatever the iteration order |
| `RouteCache.EntryInjective` | dissyssym-lib/src/routecache.rs:131 | the node of an entry text is the number before its first `-` |
| `RouteCache.NeighbourItems` | dissyssym-lib/src/routecache.rs:128 | the neighbour texts are the decimal forms of the set, each once |
| `RouteCache.Entry` | dissyssym-lib/src/routecache.rs:127-132 | the entry text is the same for every iteration order of the set |
| `RouteCache.HashParams` | dissyssym-lib/src/routecache.rs:123-141 | the key is the digest of one canonical text, whatever the iteration orders |
| `RouteCache.NeighboursSortAsText` | dissyssym-lib/src/routecache.rs:128-131 | neighbours sort as strings: `{2, 10}` gives `10,2` |
| `RouteCache.KeyTextsCollide` | dissyssym-lib/src/routecache.rs:137-138 | `(f, s) = (1, 23)` and `(12, 3)` give the same key text |
| `RouteCache.RouteCache.constructor` | dissyssym-lib/src/routecache.rs:10-14 | the cache starts empty |
| `RouteCache.RouteCache.GenRoutes` | dissyssym-lib/src/routecache.rs:16-33 | a hit returns the stored table and changes nothing; a miss runs the search and stores its result under the key; no entry is removed or replaced |
| `Routed.ListHopsExactly` | dissyssym-lib/src/algorithms/routed.rs:170-182 | a hop comes from a list exactly when some path in it has `n` followed by the hop, and the hop is not `s` |
| `Routed.NextHopsWithin` | dissyssym-lib/src/algorithms/routed.rs:168-185 | when the stored paths are walks, every hop is a neighbour of `n` and none is `s` |
| `Routed.AddPathHops` | dissyssym-lib/src/algorithms/routed.rs:171-181 | the loop over one path adds exactly that path's hops |
| `Routed.AddListHops` | dissyssym-lib/src/algorithms/routed.rs:170-182 | the loop over one neighbour's paths adds exactly their hops |
| `Routed.HopsAroundAdd` | dissyssym-lib/src/algorithms/routed.rs:169-183 | one more neighbour adds the hops of its paths |
| `Routed.SameSearchAsCache` | dissyssym-lib/src/algorithms/routed.rs:92-166 | the search `build_routes` runs has exactly the possible results of the one `get_routes_uncached` runs (routecache.rs:35-121) |
| `Routed.BuildRoutes` | dissyssym-lib/src/algorithms/routed.rs:86-186 | the routes are the hops that follow `n` on the paths the search without the skip stores at `n`'s neighbours; they are neighbours of `n`, never `s` |
| `Routed.RouteTable` | dissyssym-lib/src/algorithms/routed.rs:25-27 | one entry per node of the graph, each a possible `build_routes` result for that source |
| `Routed.RoutedAlgorithm.constructor` | dissyssym-lib/src/algorithms/routed.rs:20-33 | nothing received yet; a route entry for every node of the topology's flow graph, computed with `f` the number of faulty nodes |
| `Text.DecimalValue` | dissyssym-lib/src/topology.rs:64 | the digits of the decimal text have the number's value |
| `Text.DecimalInjective` | dissyssym-lib/src/routecache.rs:128 | different numbers have different decimal texts |
| `Text.Find` | scripts/debug2top.py:8 | the first occurrence of the separator, or the text's length when there is none |
| `Text.SplitFirst` | scripts/vis_topology.py:12 | the first piece of a split is everything before the first separator |
| `Text.SplitJoin` | scripts/debug2top.py:13 | splitting a join gives the parts back when no part holds the separator |
| `Text.RemoveChar` | scripts/debug2top.py:14 | the result is the text with every occurrence of the character removed |
| `Text.LessTotal` | dissyssym-lib/src/routecache.rs:134 | string order is total |
| `Text.LessTransitive` | dissyssym-lib/src/routecache.rs:134 | string order is transitive |
| `Text.SortStrings` | dissyssym-lib/src/routecache.rs:129 | the sorted rearrangement: sorted and a permutation |
| `Text.SortedUnique` | dissyssym-lib/src/routecache.rs:134 | a sorted arrangement of a multiset of strings is unique |
| `Text.SortCanonical` | dissyssym-lib/src/routecache.rs:134 | sorting depends only on the multiset of strings |
| `Text.SortBy` | dissyssym-lib/src/routecache.rs:106 | sorting by the digest key is sorted and a permutation |
| `Text.SortByStable` | dissyssym-lib/src/routecache.rs:106 | the sort is stable: for every key, the elements with that key keep their input order |
| `Python.Universal` | scripts/graph_messages.py:7 | text mode leaves no carriage return |
| `Python.UniversalPlain` | scripts/graph_messages.py:7 | text without carriage returns reads unchanged |
| `Python.ReadLines` | scripts/graph_messages.py:8 | every line is non-empty and ends with its only newline, except possibly the last |
| `Python.ReadLinesConcat` | scripts/graph_messages.py:8 | the lines put together are the text |
| `Python.ReadLinesOf` | scripts/graph_messages.py:8 | text written as newline-terminated lines is read back as exactly those lines |
| `Python.ChompedLinesOf` | scripts/graph_messages.py:14 | such lines with their newline removed are the written lines less the newline |
| `Python.PyInt` | scripts/vis_topology.py:13 | `int()` accepts only surrounding whitespace, an optional sign and digits with single underscores |
| `Python.PyIntDecimal` | scripts/vis_topology.py:13 | `int` reads back the decimal text, also with a trailing newline |
| `Python.PyIntCases` | scripts/vis_topology.py:13 | `"1_0"` is 10; `""` and `"\n"` are refused |
| `Python.Round` | scripts/graph_messages.py:39 | the nearest integer to the quotient, a tie going to the even one |
| `Python.RoundUnique` | scripts/graph_messages.py:39 | those two conditions single out the result |
| `Template.Lower` | scripts/graph_messages.py:14 | case folding keeps digits digits |
| `Template.MatchSound` | scripts/graph_messages.py:14 | what `parse` reports is a reading of the line as the template |
| `Template.MatchComplete` | scripts/graph_messages.py:14 | on a template whose fields cannot run into each other, every reading is the one `parse` reports |
| `Template.MatchExactly` | scripts/graph_messages.py:14 | on such a template, `parse` reports exactly the unique reading |
| `Template.RenderFits` | scripts/graph_messages.py:14 | a filled-in template is a reading of its values |
| `Template.RenderMatches` | scripts/graph_messages.py:14 | a filled-in template parses back to the values it was filled with |
| `Template.RenderAvoids` | scripts/graph_messages.py:14 | a character absent from the literals and the strings is not in the filled-in line |
| `Template.FieldsRender` | dissyssym/src/pathtime.rs:53-59 | filling the fields writes each literal and the matching integer, as `format!` does |
| `Template.FieldsSeparated` | scripts/graph_pathtime.py:5 | literals that start with a non-digit make a template whose fields cannot run into each other |
| `Template.MatchAll` | scripts/graph_messages.py:13-15 | all lines match and give their values, or the error is the first line that does not |
| `Template.MatchAllRows` | scripts/graph_messages.py:13-15 | when every line matches, the result is exactly their values |
| `Template.MatchAllStops` | scripts/graph_messages.py:13-15 | the first line that does not match is the one reported |
| `Template.FileRoundTrip` | scripts/graph_messages.py:7-15 | a file of filled-in lines is read back as the values of its lines |
| `Aggregate.ValuesPresent` | scripts/graph_messages.py:17-21 | a list exists exactly for the `(f, n)` pairs seen, and then it is not empty |
| `Aggregate.ValuesCount` | scripts/graph_messages.py:17-21 | each list holds one value per line of its pair |
| `Aggregate.SeenKeys` | scripts/graph_messages.py:17-18 | the outer dict's order lists every `f` once, and nothing else |
| `Aggregate.Record` | scripts/graph_messages.py:17-21 | one append updates the dict and its key order to the grouping of one more sample |
| `Aggregate.GroupCells` | scripts/graph_messages.py:17-21 | the outer keys are the `f` seen, the inner keys the `n` seen with them, and no list is empty |
| `Aggregate.SameCells` | scripts/graph_messages.py:17-27 | two dicts fed samples with the same `f` and `n` get the same keys, in the same order, and lists of equal length |
| `Aggregate.Least` | scripts/graph_messages.py:35 | the least element of the set |
| `Aggregate.SortedKeys` | scripts/graph_messages.py:35 | `sorted(keys)` is strictly ascending and holds exactly the keys |
| `Aggregate.Chart` | scripts/graph_messages.py:32-41 | one series: the keys ascending, each with the rounded mean of its list |
| `Aggregate.Emit` | scripts/graph_messages.py:31-41 | one series per `f`, in the dict's insertion order |
| `Aggregate.IncreasingUnique` | scripts/graph_messages.py:35 | two strictly ascending lists of the same numbers are equal |
| `Aggregate.PlotsUnique` | scripts/graph_messages.py:31-53 | the plotted series are determined by the dict and its key order |
| `Aggregate.Collect` | scripts/graph_messages.py:17-27 | one parsed line appends to both dicts |
| `Aggregate.PlotBoth` | scripts/graph_messages.py:31-53 | both plotting loops draw the series of their dict |
| `Aggregate.Script` | scripts/graph_messages.py:7-53 | the series of both dicts over the parsed lines, or the index of the first line `parse` refuses |
| `Aggregate.SameShape` | scripts/graph_messages.py:17-27 | both dicts end with the same keys, in the same order, and non-empty lists of equal length |
| `GraphMessages.Run` | scripts/graph_messages.py:5-53 | the flooding and routed series of the file, or the first line that does not match |
| `GraphMessages.FloodRoutedShape` | scripts/graph_messages.py:17-27 | `flood_results` and `routed_results` have the same keys, in the same order, and lists of equal length |
| `GraphMessages.BlankLineFails` | scripts/graph_messages.py:14-15 | a blank line does not match, so its unpacking fails |
| `GraphPathtime.Run` | scripts/graph_pathtime.py:5-53 | the fast and path series of the file, or the first line that does not match |
| `GraphPathtime.FastPathShape` | scripts/graph_pathtime.py:17-27 | `fast_results` and `path_results` have the same keys, in the same order, and lists of equal length |
| `GraphPathtime.TimingRoundTrip` | dissyssym/src/pathtime.rs:53-59 | a written timing line, its newline removed, parses back to the values written |
| `GraphPathtime.TimingsRoundTrip` | scripts/graph_pathtime.py:7-15 | a file of written timing lines is read back as the values of its lines |
| `GraphPathtime.BlankLineFails` | scripts/graph_pathtime.py:14-15 | a blank line does not match, so its unpacking fails |
| `GraphFailure.Run` | scripts/graph_failure.py:5-24 | the four lists over the parsed lines, or the first line that does not match |
| `GraphFailure.PartitionSplits` | scripts/graph_failure.py:19-24 | the fast lists get `n` and `f` of exactly the lines tagged `"f"`, the path lists those of every other line, in file order |
| `GraphFailure.PartitionSizes` | scripts/graph_failure.py:19-24 | x and y lists stay equal in length, one entry per line in all |
| `GraphFailure.FailureRoundTrip` | dissyssym/src/failure.rs:54-58 | a written failure line, its newline removed, parses back to its sizes and its tag |
| `GraphFailure.FailuresRoundTrip` | scripts/graph_failure.py:7-17 | a file of written failures is read back as their values, and exactly the fast-search failures are tagged `"f"` |
| `GraphFailure.BlankLineFails` | scripts/graph_failure.py:16-17 | a blank line does not match, so its unpacking fails |
| `Debug2Top.Body` | scripts/debug2top.py:8 | `[1:-1]` drops the first and last character, or leaves nothing |
| `Debug2Top.Run` | scripts/debug2top.py:7-16 | the loops print and collect what the steps of the entries, executed in order, produce, stopping at the first exception |
| `Debug2Top.RunEntry` | scripts/debug2top.py:9-16 | one entry's loop body executes that entry's steps |
| `Debug2Top.RunMembers` | scripts/debug2top.py:13-16 | the member loop executes one step per member, in order |
| `Debug2Top.ExecSticky` | scripts/debug2top.py:13-16 | after an exception nothing else runs |
| `Debug2Top.EmptyMapFails` | scripts/debug2top.py:9-10 | `"{}"` reaches `s[1]` on its single empty entry and raises `IndexError` |
| `Debug2Top.EmptySetSkipped` | scripts/debug2top.py:10-11 | an empty set that is not the last one is skipped |
| `Debug2Top.LastEmptySetStep` | scripts/debug2top.py:13-14 | an empty last set yields one empty member |
| `Debug2Top.LastEmptySetRaises` | scripts/debug2top.py:14-16 | that member prints `"k "` and then `int("")` raises |
| `Debug2Top.ApplyClean` | scripts/debug2top.py:14-16 | a step that raises nothing is a member whose key and member `int` accepts, printed and appended |
| `Debug2Top.CleanRun` | scripts/debug2top.py:7-16 | a run that raised nothing printed `"k v"` and appended `(int(k), int(v))` for every member, in order |
| `Debug2Top.MembersSplit` | scripts/debug2top.py:13 | decimal members joined by `", "` split back into the members |
| `Debug2Top.EntriesOf` | scripts/debug2top.py:8 | line 8 cuts the `Debug` text into the entries, each but the last losing its closing brace |
| `Debug2Top.ExecPairs` | scripts/debug2top.py:13-16 | steps for decimal keys and members print each line and append each edge, raising nothing |
| `Debug2Top.RoundTrip` | scripts/debug2top.py:7-16 | on Rust's `Debug` text of a map whose last set is not empty, the script prints and collects every edge `[k, v]`, entry by entry, and raises nothing |
| `Debug2Top.LastEmptyRaises` | scripts/debug2top.py:7-16 | when the last set is empty, every other edge is collected, `"k "` is printed for the last key, and then `ValueError` is raised |
| `Debug2Top.EmptyMapRaises` | scripts/debug2top.py:7-10 | the empty map is written `{}`, and the script raises `IndexError` on it |
| `VisTopology.Run` | scripts/vis_topology.py:11-13 | one edge per line in file order, or the first line that raises and its exception |
| `VisTopology.ParseTokens` | scripts/vis_topology.py:13 | evaluation order: the first `int`, then the index `items[1]`, then the second `int` |
| `VisTopology.ExtraTokensIgnored` | scripts/vis_topology.py:12-13 | tokens after the second are ignored |
| `VisTopology.LineParses` | scripts/vis_topology.py:12-13 | `int` tolerates the newline the line still ends with |
| `VisTopology.BlankLineFails` | scripts/vis_topology.py:12-13 | a blank line raises `ValueError` at the first `int` |
| `VisTopology.SingleTokenFails` | scripts/vis_topology.py:12-13 | a single number raises `IndexError` |
| `VisTopology.DoubleSpaceFails` | scripts/vis_topology.py:12-13 | two spaces in a row leave an empty second token, which `int` refuses |
| `VisTopology.ReadsWritten` | scripts/vis_topology.py:7-13 | every line of the file `Topology::write` stores parses back to the edge written there |

## Left out

- File reading and writing, the command-line arguments, `print` output and
  drawing (matplotlib, networkx). Scripts receive the file's decoded text or the
  argument's text. `Topology::write` returns the text it would store.
- Plot decoration: labels, ticks, titles and scales. A series keeps its `f` in
  place of its label `str(results[f])`.
- `vis_topology.py` lines 15-21: `nx.approximation.node_connectivity` and the
  drawing. `debug2top.py` lines 18-22: the drawing.
- SHA-512 and its upper-case hex formatting are the parameter
  `digest: string -> string`. Nothing is assumed about it, not even
  injectivity: the cache is correct relative to equal digests.
- Randomness is a free choice of the index, and `thread_rng` is not modelled;
  the moves themselves are modelled (`Topology.Shuffle`,
  `Topology.ChooseMultiple`).
- `Topology.TryGenerate`: the round loop takes a `fuel` bound. Whether the
  random matching terminates is a question of probability; `Exhausted` stands
  for running out of fuel, and `Topology.Topology.Generate` treats it like a
  failed attempt.
- `Topology.Topology.Generate`: the two `assert!` panics come back as `Err` values with nothing changed; the unwinding of the thread is not modelled.
- `usize` arithmetic in `generate` (`n * c`) and in the flow counts is
  unbounded here. A 64-bit overflow of `n * c` is not modelled. Labels read by
  `parse` are bounded by `USIZE_LIMIT`.
- `Flow.MaxFlow` and `Flow.Connectivity`: the value depends on hash-set
  iteration order. The contracts state bounds and admissibility rather than one
  number. Node connectivity is not claimed.
- `Template.Match`: the model expands `parse`'s `{:d}` only in its decimal form,
  with an optional sign. The `0x`, `0o` and `0b` forms are not modelled. Literal text is matched with ASCII case folding
  only. `{:d}` digits are ASCII only: Unicode digits, which `parse` matches
  with `\d` and then drops or fails on when converting, are not modelled; the
  Rust writers emit ASCII digits only.
- `Python.PyInt`: only ASCII whitespace and ASCII digits. Unicode digits and
  whitespace that `int()` also accepts are left out.
- Python's `round` of a float is `Python.Round`, an exact rational rounded half
  to even. Float error in `sum(l) / len(l)` is not modelled.
- The `Debug` text read by `debug2top.py` comes from Rust's standard formatter.
  `Debug2Top.DebugText` models only the shape `{k: {v, w}, j: {}}` for the
  entries in iteration order.
- `RoutedAlgorithm::on_message` and `send_broadcast`, the rest of the simulator
  (`node.rs`, `edge.rs`, `graph.rs`, `simulate.rs`), the flooding algorithm and
  the getters of `Topology` are outside the modelled core. The getters are
  field reads.
- `Routed.RoutedAlgorithm.constructor` requires the topology's flow graph to
  hold `n` unless it is empty. Otherwise the `unwrap` at routed.rs:169 panics,
  and this model does not cover that panic.
- `RouteCache.RouteCache.GenRoutes` requires the search to be runnable on a
  miss. The `unwrap`s at routecache.rs:56 and 60 panic otherwise, and this
  model does not cover those panics.

## Notes

- The second `expect` of `topology.rs` (line 91) repeats the message of the
  first one ("first edge"). `Topology.LineFault` tells the three faults apart.
- `hash_params` feeds `f` and `s` to the hasher with no separator between them.
  `RouteCache.KeyTextsCollide` shows that `(f, s) = (1, 23)` and `(12, 3)`
  produce the same key text on every graph. Two such calls share a cache entry
  even though their searches differ. This model states the cache correct only
  for the inputs whose key a table was stored under.
