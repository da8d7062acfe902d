# Ricci curvature of weighted graphs, in Dafny

This project models the curvature calculators of
`experiments/ricci_calculators.py`. They annotate every edge of a weighted
undirected graph with a discrete Ricci curvature:

- `_fix_graph` gives unit weights to the edges and vertices of a graph that
  has none.
- `_forman_edge` and `forman` compute the Forman-Ricci curvature of an edge
  from the weights of the edge, of its endpoints and of the edges around it,
  and write it to the `forman` attribute of every edge.
- `_create_mu` builds the lazy-random-walk mass vector of a vertex: mass
  `idleness` stays at the vertex and the rest is spread evenly over its
  neighbours.
- `ollivier` writes `1 - W(mu1, mu2) / weight(e)` to the `ollivier` attribute
  of every edge. `W` is the optimal-transport cost between the mass vectors
  of the edge's endpoints, under the shortest-path distance matrix.

The modules are:

- `Graphs` (`graphs.dfy`): the graph structure. Vertices are the labels
  `0 .. n-1`. The adjacency `adj[u]` lists u's neighbours in insertion
  order. An undirected edge is the key `(min, max)`. `Edges` lists the edges
  in the order networkx's `gr.edges` yields them.
- `RicciCalculators` (`ricci_calculators.dfy`): the curvature formulas as
  functions, and the loops as methods proved against them. The graph is a
  class `Graph` whose attribute maps (`edgeWeight`, `nodeWeight`, `forman`,
  `ollivier`) the methods update in place, as the source updates
  `gr.edges[e]` and `gr.nodes[v]`.
- `RicciProperties` (`ricci_properties.dfy`): properties that relate
  several calls or hold over whole families of graphs.

A lookup of a missing attribute raises KeyError in the source. Here it is
a failure outcome: `None` for one edge, `ok == false` for a whole pass.
The failure comes at the first edge whose attributes are missing, and the
attributes already written before that edge stay. The ghost counter
`visited` says how many edges were written.

`_fix_graph` is all or nothing (lines 10 and 15): weights are added only
when no edge (respectively no vertex) has one. A graph in which some edges
are weighted and others are not keeps its gaps, as the function's docstring
and comments (lines 8, 9 and 14) say: weights are added only if none are
present. `FixLeavesPartialWeights` shows this on a concrete graph.

## Model

| member | source | states |
|---|---|---|
| Graphs.Edges | experiments/ricci_calculators.py:65 | `gr.edges` visits exactly the undirected edges, each as the key (u, v) with u < v |
| Graphs.EdgesDistinct | experiments/ricci_calculators.py:65 | on a simple graph `gr.edges` yields each edge only once |
| Graphs.Vertices | experiments/ricci_calculators.py:16 | `gr.nodes` is exactly the labels below n |
| RicciCalculators.FixEdgeWeights | experiments/ricci_calculators.py:10-12 | the fix never overwrites or drops an existing edge weight, and adds weights only on edges of the graph |
| RicciCalculators.FixNodeWeights | experiments/ricci_calculators.py:15-17 | the fix never overwrites or drops an existing vertex weight, and adds weights only on vertices of the graph |
| RicciCalculators.Graph.FillEdgeWeights | experiments/ricci_calculators.py:10-12 | the loop over `gr.edges` leaves exactly the all-or-nothing edge weights, and keeps the graph valid |
| RicciCalculators.Graph.FillNodeWeights | experiments/ricci_calculators.py:15-17 | the loop over `gr.nodes` leaves exactly the all-or-nothing vertex weights |
| RicciCalculators.Graph.FixGraph | experiments/ricci_calculators.py:7-17 | fixes edge and vertex weights independently; the structure and both curvature attributes are unchanged |
| RicciCalculators.SubtractPenalties | experiments/ricci_calculators.py:29-34 | one neighbour loop succeeds exactly when every other edge at the endpoint has a weight, and then subtracts the endpoint's whole penalty |
| RicciCalculators.ScaleByEdgeWeight | experiments/ricci_calculators.py:35 | `f *= we` after both loops yields the Forman curvature of the edge |
| RicciCalculators.FormanValueOf | experiments/ricci_calculators.py:28-35 | the step-by-step update of `f` equals the closed Forman formula |
| RicciCalculators.FormanEdge | experiments/ricci_calculators.py:20-36 | succeeds exactly when every weight the edge needs is present (otherwise KeyError), and then returns the edge's Forman curvature |
| RicciCalculators.FormanEdges | experiments/ricci_calculators.py:65-66 | the loop succeeds exactly when every edge is ready, and then every edge carries its Forman curvature over the old attributes; otherwise it stops at the first edge in `gr.edges` order that is not ready, keeping what it wrote before |
| RicciCalculators.FormanAlongKeys | experiments/ricci_calculators.py:65-66 | the loop writes no attribute on an edge it did not visit |
| RicciCalculators.FormanAlongIsFormanOn | experiments/ricci_calculators.py:65-66 | the visit order does not matter: the attributes written are those of the set of visited edges |
| RicciCalculators.FormanComplete | experiments/ricci_calculators.py:65-66 | the loop gets through every edge exactly when all edges are ready, and then every edge carries its Forman curvature |
| RicciCalculators.Graph.WriteForman | experiments/ricci_calculators.py:65-66 | the `forman` map after the loop is the loop's result over the old map; only `forman` changes |
| RicciCalculators.Graph.Forman | experiments/ricci_calculators.py:60-66 | after the optional fix, succeeds exactly when all edges are ready, and then every edge carries its Forman curvature; weights change only by the fix; `ollivier` and the structure are unchanged |
| RicciCalculators.CreateMu | experiments/ricci_calculators.py:39-45 | defined exactly for a vertex with a neighbour (otherwise the source fails); one entry per vertex, `idleness` at the vertex, (1 - idleness) / deg at each neighbour, 0 elsewhere |
| RicciCalculators.OllivierEdge | experiments/ricci_calculators.py:76-80 | the loop body fails exactly when the edge has no weight (KeyError), and otherwise yields 1 - wd / weight for the transport cost wd between the endpoints' mass vectors |
| RicciCalculators.OllivierEdges | experiments/ricci_calculators.py:75-80 | the loop succeeds exactly when every edge has a weight, and then every edge carries its Ollivier curvature over the old attributes; otherwise it stops at the first edge in `gr.edges` order without a weight, keeping what it wrote before |
| RicciCalculators.OllivierAlongKeys | experiments/ricci_calculators.py:75-80 | the loop writes no attribute on an edge it did not visit |
| RicciCalculators.OllivierAlongIsOllivierOn | experiments/ricci_calculators.py:75-80 | the visit order does not matter for `ollivier` |
| RicciCalculators.OllivierComplete | experiments/ricci_calculators.py:75-80 | the loop gets through every edge exactly when every edge has a weight, and then every edge carries its Ollivier curvature |
| RicciCalculators.Graph.WriteOllivier | experiments/ricci_calculators.py:75-80 | the `ollivier` map after the loop is the loop's result over the old map; only `ollivier` changes |
| RicciCalculators.Graph.Ollivier | experiments/ricci_calculators.py:69-80 | after the optional fix, with the distance matrix of the fixed graph, succeeds exactly when every edge has a weight, and then every edge carries its Ollivier curvature; `forman` and the structure are unchanged |
| RicciProperties.FixEdgeWeightsAllOrNothing | experiments/ricci_calculators.py:10-12 | either the edge weights are returned untouched, or none existed and now exactly the graph's edges have weight 1 |
| RicciProperties.FixNodeWeightsAllOrNothing | experiments/ricci_calculators.py:15-17 | either the vertex weights are returned untouched, or none existed and now exactly the vertices have weight 1 |
| RicciProperties.FixEdgeWeightsIdempotent | experiments/ricci_calculators.py:10-12 | fixing the edge weights twice is fixing them once |
| RicciProperties.FixNodeWeightsIdempotent | experiments/ricci_calculators.py:15-17 | fixing the vertex weights twice is fixing them once |
| RicciProperties.FixLeavesPartialWeights | experiments/ricci_calculators.py:10-12 | on the path 0-1-2 with only edge (0, 1) weighted, the fix leaves (1, 2) without a weight, so `forman` cannot get through every edge |
| RicciProperties.UnitPenalty | experiments/ricci_calculators.py:29-34 | with unit weights the penalty of an endpoint is its degree minus 1 |
| RicciProperties.FormanUnitWeights | experiments/ricci_calculators.py:24-36 | with unit weights, the curvature of edge (v1, v2) is 4 - deg(v1) - deg(v2) |
| RicciProperties.FormanOnUnweightedGraph | experiments/ricci_calculators.py:60-66 | `forman` with the fix on a graph without weights gives every edge 4 - deg(v1) - deg(v2) |
| RicciProperties.FormanPathExample | experiments/ricci_calculators.py:60-66 | on the path 0-1-2 without weights, both edges get Forman curvature 1 |
| RicciProperties.FormanSymmetric | experiments/ricci_calculators.py:28-35 | the Forman curvature of (v1, v2) and of (v2, v1) agree |
| RicciProperties.PenaltyPermutation | experiments/ricci_calculators.py:29-34 | the penalty summed by a neighbour loop depends only on the multiset of neighbours, not on their order |
| RicciProperties.FormanNeighbourOrder | experiments/ricci_calculators.py:28-35 | after the neighbour lists of the endpoints are reordered, a ready edge stays ready and keeps its Forman curvature |
| RicciProperties.FormanOnNeighbourOrder | experiments/ricci_calculators.py:60-66 | reordering every neighbour list keeps the set of edges; if every edge was ready, every edge stays ready and the whole `forman` result is unchanged |
| RicciProperties.MuShape | experiments/ricci_calculators.py:41-44 | on a simple graph, the mass vector is `idleness` at the vertex, one share at each neighbour and 0 elsewhere |
| RicciProperties.MuSumsToOne | experiments/ricci_calculators.py:41-45 | on a simple graph, the mass vector of a vertex with a neighbour sums to 1 |
| RicciProperties.MuEntriesBounded | experiments/ricci_calculators.py:41-45 | for idleness in [0, 1], every entry of the mass vector is in [0, 1] |

## Left out

- `draw_graph` (lines 48-57): matplotlib layout and drawing only.
- Floating point: weights and curvatures are exact reals. The comparison
  "within 1e-9" collapses to equality.
- `np.sqrt` is a function parameter. The model assumes only that it is
  positive on positive arguments and maps 1 to 1.
- `floyd_warshall_numpy` (line 74) and `ot.emd2` (line 79) are function
  parameters. Their code is not part of this model. Shortest paths and
  optimal transport are not verified, and no concrete Ollivier value (such
  as the one on a triangle) is stated, because it depends on them.
- Infinite shortest-path distances are not modelled. On a disconnected
  graph `floyd_warshall_numpy` reports inf for an unreachable pair. Non-finite
  `emd2` results and non-finite curvatures are not modelled either: `dist`
  and `wd` are finite reals.
- Vertex labels are `0 .. n-1` in insertion order, as `_create_mu`'s
  `mu[vertex]` indexing needs. Other label types are not modelled.
- Attributes other than `weight`, `forman` and `ollivier` are not
  modelled. The class has no field for them, so no method can touch them.
- The default arguments `idleness=0` and `fix=True` are plain parameters.
- RicciCalculators.Graph.Forman: requires strictly positive edge weights,
  because the model takes weights as positive costs, as callers supply
  them. Outside that, the source does three things the model does not
  cover:
  - A zero edge weight divides by zero on line 28.
  - `np.sqrt` returns nan where `we * w(v, n)` is negative (lines 31 and
    34), that is, where weights of both signs meet at an endpoint.
  - Otherwise a negative weight gives a defined value. A single edge of
    weight -1 gets 2, and when every weight is negative each product
    under the root is positive.
- RicciCalculators.Graph.Ollivier: requires strictly positive edge weights,
  as positive costs. A zero weight divides by zero on line 80. A negative
  weight gives a defined value over negative distances, which the model
  does not cover.
- RicciCalculators.Graph.Ollivier: the loop computes `wd` before it reads
  the edge weight, as the source does. A failure inside `emd2` is not
  modelled, because `emd2` is a parameter.
- RicciProperties.MuSumsToOne: stated for a simple graph (no self-loops,
  no repeated neighbours). On a self-loop the overwrite on line 44 replaces
  a share rather than a 0, and the sum is not 1 unless idleness is 1.
- Graphs with self-loops are not modelled. `WellFormed`, which the `Graph`
  class keeps as its invariant, excludes them. networkx accepts an edge
  (u, u), `gr.edges` yields it, and `_forman_edge` computes a value for it.
- Exceptions are failure outcomes, not control transfer. A KeyError in
  `forman` or `ollivier` ends the pass with `ok == false`. The attributes
  written before the failing edge stay, as in the source.
